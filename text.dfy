/** Whitespace splitting, joining and lower-casing of tweet text, as Python's
    `str.split()`, `' '.join(...)` and `str.lower()` do them (ASCII only). */
module Text {

  /** The ASCII characters that Python's `unicode.split()` treats as whitespace:
      tab, line feed, vertical tab, form feed, carriage return, the four
      separators 0x1C to 0x1F, and space. */
  predicate IsSpace(c: char) {
    9 <= c as int <= 13 || 28 <= c as int <= 32
  }

  /** A token as `split()` produces it: non-empty, without whitespace. */
  predicate IsWord(w: string) {
    |w| > 0 && forall i :: 0 <= i < |w| ==> !IsSpace(w[i])
  }

  /** `s` without its leading whitespace. */
  function DropSpace(s: string): string {
    if s != [] && IsSpace(s[0]) then DropSpace(s[1..]) else s
  }

  /** The longest prefix of `s` without whitespace. */
  function TakeWord(s: string): string {
    if s == [] || IsSpace(s[0]) then [] else [s[0]] + TakeWord(s[1..])
  }

  /** Python's `s.split()`: the maximal runs of non-whitespace characters, in order. */
  function Split(s: string): seq<string>
    decreases |s|
  {
    var t := DropSpace(s);
    if t == [] then []
    else
      DropSpaceSpec(s);
      TakeWordSpec(t);
      var w := TakeWord(t);
      [w] + Split(t[|w|..])
  }

  /** `DropSpace` removes a run of whitespace from the front and stops at the first other character. */
  lemma {:induction false} DropSpaceSpec(s: string)
    ensures var t := DropSpace(s);
      |t| <= |s| && t == s[|s| - |t|..] && (t == [] || !IsSpace(t[0])) &&
      forall i :: 0 <= i < |s| - |t| ==> IsSpace(s[i])
    decreases |s|
  {
    if s != [] && IsSpace(s[0]) {
      DropSpaceSpec(s[1..]);
      var t := DropSpace(s);
      forall i | 0 <= i < |s| - |t| ensures IsSpace(s[i]) {
        if i > 0 {
          assert s[i] == s[1..][i - 1];
        }
      }
    }
  }

  /** `TakeWord` is the longest whitespace-free prefix. */
  lemma {:induction false} TakeWordSpec(s: string)
    ensures var w := TakeWord(s);
      |w| <= |s| && w == s[..|w|] && (|w| == |s| || IsSpace(s[|w|])) &&
      (s != [] && !IsSpace(s[0]) ==> |w| > 0) &&
      forall i :: 0 <= i < |w| ==> !IsSpace(w[i])
    decreases |s|
  {
    if s != [] && !IsSpace(s[0]) {
      TakeWordSpec(s[1..]);
      var w := TakeWord(s);
      assert w == [s[0]] + TakeWord(s[1..]);
      forall i | 0 <= i < |w| ensures !IsSpace(w[i]) {
        if i > 0 {
          assert w[i] == TakeWord(s[1..])[i - 1];
        }
      }
    }
  }

  /** Python's `' '.join(ws)`. */
  function Join(ws: seq<string>): string {
    if ws == [] then ""
    else if |ws| == 1 then ws[0]
    else ws[0] + " " + Join(ws[1..])
  }

  /** All characters of the tokens, one token after the other. */
  function Concat(ws: seq<string>): string {
    if ws == [] then "" else ws[0] + Concat(ws[1..])
  }

  /** The characters of `s` that are not whitespace, in order. */
  function NonSpace(s: string): string {
    if s == [] then ""
    else if IsSpace(s[0]) then NonSpace(s[1..])
    else [s[0]] + NonSpace(s[1..])
  }

  function LowerChar(c: char): char {
    if 'A' <= c <= 'Z' then (c as int + 32) as char else c
  }

  /** Python's `w.lower()`, restricted to ASCII letters. */
  function Lower(w: string): string {
    seq(|w|, i requires 0 <= i < |w| => LowerChar(w[i]))
  }

  predicate HasUpper(w: string) {
    exists i :: 0 <= i < |w| && 'A' <= w[i] <= 'Z'
  }

  /** A token as `extractWords` leaves it: a word with no upper-case letter. */
  predicate TokenIsLowerWord(w: string) {
    IsWord(w) && !HasUpper(w)
  }

  /** The tokens of one tweet as `extractWords` builds them: split, then each word lower-cased. */
  function Tokenize(text: string): seq<string> {
    var ws := Split(text);
    seq(|ws|, i requires 0 <= i < |ws| => Lower(ws[i]))
  }

  // ---------------------------------------------------------------- lemmas

  lemma {:induction false} DropSpaceOfWordStart(s: string)
    requires s != [] && !IsSpace(s[0])
    ensures DropSpace(s) == s
  {
  }

  /** One step of `split()`: skip whitespace, take a word, split the rest. */
  lemma {:induction false} SplitStep(s: string)
    requires DropSpace(s) != []
    ensures var t := DropSpace(s); var w := TakeWord(t);
      |t| <= |s| && 0 < |w| <= |t| && IsWord(w) && Split(s) == [w] + Split(t[|w|..])
  {
    DropSpaceSpec(s);
    TakeWordSpec(DropSpace(s));
  }

  /** Every token of `split()` is a non-empty run without whitespace. */
  lemma {:induction false} SplitWords(s: string)
    ensures forall i :: 0 <= i < |Split(s)| ==> IsWord(Split(s)[i])
    decreases |s|
  {
    var t := DropSpace(s);
    if t != [] {
      SplitStep(s);
      var w := TakeWord(t);
      SplitWords(t[|w|..]);
      var ws := Split(s);
      forall i | 0 <= i < |ws| ensures IsWord(ws[i]) {
        if i > 0 {
          assert ws[i] == Split(t[|w|..])[i - 1];
        }
      }
    }
  }

  /** Leading whitespace never changes the split. */
  lemma {:induction false} SplitIgnoresLeadingSpace(s: string)
    ensures Split(s) == Split(DropSpace(s))
  {
    DropSpaceSpec(s);
    var t := DropSpace(s);
    if t != [] {
      DropSpaceOfWordStart(t);
    }
  }

  lemma {:induction false} TakeWordOfWord(w: string, rest: string)
    requires forall i :: 0 <= i < |w| ==> !IsSpace(w[i])
    requires rest == [] || IsSpace(rest[0])
    ensures TakeWord(w + rest) == w
    decreases |w|
  {
    if w != [] {
      assert (w + rest)[0] == w[0];
      assert (w + rest)[1..] == w[1..] + rest;
      TakeWordOfWord(w[1..], rest);
    } else {
      assert w + rest == rest;
    }
  }

  /** A single word splits to itself. */
  lemma {:induction false} SplitOfWord(w: string)
    requires IsWord(w)
    ensures Split(w) == [w]
  {
    DropSpaceOfWordStart(w);
    SplitStep(w);
    TakeWordOfWord(w, "");
    assert w + "" == w;
    assert w[|w|..] == "";
  }

  lemma {:induction false} SplitWordThenSpace(w: string, j: string)
    requires IsWord(w) && j != [] && !IsSpace(j[0])
    ensures Split(w + " " + j) == [w] + Split(j)
  {
    var s := w + " " + j;
    assert s[0] == w[0];
    DropSpaceOfWordStart(s);
    SplitStep(s);
    assert s == w + (" " + j);
    TakeWordOfWord(w, " " + j);
    assert s[|w|..] == " " + j;
    DropSpaceOfWordStart(j);
    assert (" " + j)[1..] == j;
    assert DropSpace(" " + j) == j;
    SplitIgnoresLeadingSpace(" " + j);
  }

  /** Every whitespace character separates tokens: splitting at it splits the text. */
  lemma {:induction false} SplitAtSpace(a: string, c: char, b: string)
    requires IsSpace(c)
    ensures Split(a + [c] + b) == Split(a) + Split(b)
    decreases |a|
  {
    var s := a + [c] + b;
    if a == [] {
      assert s[1..] == b;
      SplitIgnoresLeadingSpace(s);
      SplitIgnoresLeadingSpace(b);
    } else if IsSpace(a[0]) {
      assert s[0] == a[0] && s[1..] == a[1..] + [c] + b;
      SplitIgnoresLeadingSpace(s);
      SplitIgnoresLeadingSpace(s[1..]);
      SplitIgnoresLeadingSpace(a);
      SplitIgnoresLeadingSpace(a[1..]);
      SplitAtSpace(a[1..], c, b);
    } else {
      assert s[0] == a[0];
      DropSpaceOfWordStart(a);
      DropSpaceOfWordStart(s);
      TakeWordSpec(a);
      var w := TakeWord(a);
      var rest := a[|w|..] + [c] + b;
      assert s == w + rest;
      TakeWordOfWord(w, rest);
      SplitStep(a);
      SplitStep(s);
      assert s[|w|..] == rest;
      SplitAtSpace(a[|w|..], c, b);
    }
  }

  /** Splitting the space-joined words gives the words back. */
  lemma {:induction false} SplitJoin(ws: seq<string>)
    requires forall i :: 0 <= i < |ws| ==> IsWord(ws[i])
    ensures Split(Join(ws)) == ws
    decreases |ws|
  {
    if |ws| == 1 {
      SplitOfWord(ws[0]);
    } else if |ws| > 1 {
      assert IsWord(ws[0]);
      SplitJoin(ws[1..]);
      JoinStartsWithWord(ws[1..]);
      SplitWordThenSpace(ws[0], Join(ws[1..]));
    }
  }

  lemma {:induction false} JoinStartsWithWord(ws: seq<string>)
    requires |ws| > 0 && forall i :: 0 <= i < |ws| ==> IsWord(ws[i])
    ensures |ws[0]| > 0 && Join(ws) != [] && Join(ws)[0] == ws[0][0]
  {
    assert IsWord(ws[0]);
  }

  lemma {:induction false} NonSpaceAppend(a: string, b: string)
    ensures NonSpace(a + b) == NonSpace(a) + NonSpace(b)
    decreases |a|
  {
    if a == [] {
      assert a + b == b;
    } else {
      assert (a + b)[1..] == a[1..] + b;
      NonSpaceAppend(a[1..], b);
    }
  }

  lemma {:induction false} NonSpaceOfSpaces(s: string)
    requires forall i :: 0 <= i < |s| ==> IsSpace(s[i])
    ensures NonSpace(s) == ""
    decreases |s|
  {
    if s != [] {
      NonSpaceOfSpaces(s[1..]);
    }
  }

  lemma {:induction false} NonSpaceOfWordChars(s: string)
    requires forall i :: 0 <= i < |s| ==> !IsSpace(s[i])
    ensures NonSpace(s) == s
    decreases |s|
  {
    if s != [] {
      NonSpaceOfWordChars(s[1..]);
      assert s == [s[0]] + s[1..];
    }
  }

  lemma {:induction false} NonSpaceDropSpace(s: string)
    ensures NonSpace(s) == NonSpace(DropSpace(s))
  {
    DropSpaceSpec(s);
    var t := DropSpace(s);
    var sp := s[..|s| - |t|];
    assert s == sp + t;
    NonSpaceAppend(sp, t);
    NonSpaceOfSpaces(sp);
  }

  lemma {:induction false} NonSpaceTakeWord(t: string)
    ensures |TakeWord(t)| <= |t| && NonSpace(t) == TakeWord(t) + NonSpace(t[|TakeWord(t)|..])
  {
    TakeWordSpec(t);
    var w := TakeWord(t);
    var rest := t[|w|..];
    assert t == w + rest;
    NonSpaceAppend(w, rest);
    NonSpaceOfWordChars(w);
  }

  /** `split()` loses only whitespace: the tokens, concatenated, are exactly the
      non-whitespace characters of the text. */
  lemma {:induction false} SplitKeepsCharacters(s: string)
    ensures Concat(Split(s)) == NonSpace(s)
    decreases |s|
  {
    NonSpaceDropSpace(s);
    var t := DropSpace(s);
    if t != [] {
      SplitStep(s);
      NonSpaceTakeWord(t);
      var w := TakeWord(t);
      SplitKeepsCharacters(t[|w|..]);
    }
  }

  lemma {:induction false} LowerChars(w: string)
    ensures |Lower(w)| == |w|
    ensures forall i :: 0 <= i < |w| ==> Lower(w)[i] == LowerChar(w[i])
  {
  }

  /** Lower-casing keeps a token a token and leaves no upper-case letter; doing it twice changes nothing. */
  lemma {:induction false} LowerWord(w: string)
    ensures IsWord(w) ==> IsWord(Lower(w))
    ensures !HasUpper(Lower(w))
    ensures Lower(Lower(w)) == Lower(w)
  {
    LowerChars(w);
    LowerChars(Lower(w));
  }

  lemma {:induction false} LowerConcat(ws: seq<string>)
    ensures Concat(seq(|ws|, i requires 0 <= i < |ws| => Lower(ws[i]))) == Lower(Concat(ws))
    decreases |ws|
  {
    var lows := seq(|ws|, i requires 0 <= i < |ws| => Lower(ws[i]));
    if ws != [] {
      LowerConcat(ws[1..]);
      assert lows[1..] == seq(|ws[1..]|, i requires 0 <= i < |ws[1..]| => Lower(ws[1..][i]));
      assert Lower(ws[0] + Concat(ws[1..])) == Lower(ws[0]) + Lower(Concat(ws[1..]));
    }
  }

  /** The tokens of a tweet are lower-case words, one per whitespace-separated
      word of the text, and together they hold exactly its non-whitespace
      characters, lower-cased. */
  lemma {:induction false} TokenizeSpec(text: string)
    ensures |Tokenize(text)| == |Split(text)|
    ensures forall i :: 0 <= i < |Tokenize(text)| ==> TokenIsLowerWord(Tokenize(text)[i])
    ensures Concat(Tokenize(text)) == Lower(NonSpace(text))
  {
    var ws := Split(text);
    SplitWords(text);
    forall i | 0 <= i < |ws|
      ensures TokenIsLowerWord(Tokenize(text)[i])
    {
      LowerWord(ws[i]);
    }
    LowerConcat(ws);
    SplitKeepsCharacters(text);
  }
}
