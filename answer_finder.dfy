/**
 * `find_answer`: split the text into sentence pieces, take the question's
 * keywords, score every piece by the keywords it contains, and return the
 * first piece with the highest score.
 */
module AnswerFinder {
  import opened Chars
  import opened SentenceSplit

  /** The default of `max` when there is nothing to choose from. */
  const Fallback: string := "Sorry, I couldn't find an answer."

  /** Length of the run of non-whitespace characters at the front of `q`. */
  function WordRun(q: string): (n: nat)
    ensures n <= |q|
    ensures forall i :: 0 <= i < n ==> !IsSpace(q[i])
    ensures n < |q| ==> IsSpace(q[n])
  {
    if |q| > 0 && !IsSpace(q[0]) then 1 + WordRun(q[1..]) else 0
  }

  /** Python's argumentless `str.split()`: the maximal runs of non-whitespace, in order. */
  function Words(q: string): (ws: seq<string>)
    ensures forall k :: 0 <= k < |ws| ==> |ws[k]| > 0 && forall i :: 0 <= i < |ws[k]| ==> !IsSpace(ws[k][i])
    decreases |q|
  {
    if q == [] then []
    else if IsSpace(q[0]) then Words(q[1..])
    else
      var n := WordRun(q);
      [q[..n]] + Words(q[n..])
  }

  /** `[w.lower() for w in question.split() if len(w) > 2]` over a list of words. */
  function KeywordsOf(ws: seq<string>): (ks: seq<string>)
    ensures |ks| <= |ws|
    ensures forall i :: 0 <= i < |ks| ==> |ks[i]| > 2
  {
    if ws == [] then []
    else (if |ws[0]| > 2 then [Lower(ws[0])] else []) + KeywordsOf(ws[1..])
  }

  /** The keywords of a question. */
  function Keywords(question: string): (ks: seq<string>)
    ensures |ks| <= |Words(question)|
    ensures forall i :: 0 <= i < |ks| ==> |ks[i]| > 2
  {
    KeywordsOf(Words(question))
  }

  /** `sum(k in piece.lower() for k in keywords)`: keywords counted with multiplicity. */
  function Score(piece: string, keywords: seq<string>): (n: nat)
    ensures n <= |keywords|
    decreases |keywords|
  {
    if keywords == [] then 0
    else
      Score(piece, keywords[..|keywords| - 1])
      + (if Contains(keywords[|keywords| - 1], Lower(piece)) then 1 else 0)
  }

  function Scores(pieces: seq<string>, keywords: seq<string>): (r: seq<nat>)
    ensures |r| == |pieces|
    ensures forall i :: 0 <= i < |pieces| ==> r[i] == Score(pieces[i], keywords)
  {
    seq(|pieces|, i requires 0 <= i < |pieces| => Score(pieces[i], keywords))
  }

  /** `i` holds a maximum of `s` and every element before it is strictly smaller. */
  predicate IsFirstMax(s: seq<int>, i: int) {
    && 0 <= i < |s|
    && (forall j :: 0 <= j < |s| ==> s[j] <= s[i])
    && (forall j :: 0 <= j < i ==> s[j] < s[i])
  }

  /** Python's `max`, which replaces its candidate only on a strictly greater key. */
  function FirstMaxIndex(s: seq<int>): (i: nat)
    requires |s| > 0
    ensures IsFirstMax(s, i)
  {
    if |s| == 1 then 0
    else
      var m := FirstMaxIndex(s[..|s| - 1]);
      if s[|s| - 1] > s[m] then |s| - 1 else m
  }

  /**
   * `find_answer(text, question)`: the result is one of the pieces of the
   * split, its score is the highest, and every earlier piece scores lower.
   */
  function FindAnswer(text: string, question: string): (r: string)
    ensures exists i :: IsFirstMax(Scores(SplitSentences(text).pieces, Keywords(question)), i)
                        && r == SplitSentences(text).pieces[i]
  {
    var pieces := SplitSentences(text).pieces;
    var scores := Scores(pieces, Keywords(question));
    if |pieces| == 0 then Fallback else pieces[FirstMaxIndex(scores)]
  }
}

module AnswerFinderFacts {
  import opened Chars
  import opened SentenceSplit
  import opened SentenceSplitFacts
  import opened AnswerFinder

  /** The characters of `q` that are not whitespace, in order. */
  function NonSpace(q: string): string {
    if q == [] then "" else (if IsSpace(q[0]) then "" else [q[0]]) + NonSpace(q[1..])
  }

  lemma {:induction false} NonSpaceAppend(a: string, b: string)
    ensures NonSpace(a + b) == NonSpace(a) + NonSpace(b)
  {
    if a != [] {
      var head := if IsSpace(a[0]) then "" else [a[0]];
      assert (a + b)[0] == a[0] && (a + b)[1..] == a[1..] + b;
      assert NonSpace(a + b) == head + NonSpace(a[1..] + b);
      NonSpaceAppend(a[1..], b);
    } else {
      assert a + b == b;
    }
  }

  lemma NonSpaceOfWord(w: string)
    requires forall i :: 0 <= i < |w| ==> !IsSpace(w[i])
    ensures NonSpace(w) == w
  {
    if w != [] {
      NonSpaceOfWord(w[1..]);
    }
  }

  /** The words, concatenated, are the non-whitespace characters. */
  lemma {:induction false} WordsConcat(q: string)
    ensures Concat(Words(q)) == NonSpace(q)
    decreases |q|
  {
    if q == [] {
    } else if IsSpace(q[0]) {
      WordsConcat(q[1..]);
    } else {
      var n := WordRun(q);
      var w, rest := q[..n], q[n..];
      WordsConcat(rest);
      var ws := [w] + Words(rest);
      assert Words(q) == ws;
      assert ws[0] == w && ws[1..] == Words(rest);
      assert Concat(ws) == w + Concat(Words(rest));
      assert q == w + rest;
      NonSpaceAppend(w, rest);
      NonSpaceOfWord(w);
    }
  }

  lemma WordRunAppend(a: string, b: string)
    requires |b| > 0 && IsSpace(b[0])
    ensures WordRun(a + b) == WordRun(a) <= |a|
  {
    if |a| > 0 && !IsSpace(a[0]) {
      assert (a + b)[1..] == a[1..] + b;
      WordRunAppend(a[1..], b);
    }
  }

  /** A whitespace character separates words: splitting distributes over it. */
  lemma {:induction false} WordsSplitAtSpace(a: string, c: char, b: string)
    requires IsSpace(c)
    ensures Words(a + [c] + b) == Words(a) + Words(b)
    decreases |a|
  {
    var s := a + [c] + b;
    if a == [] {
      assert s[1..] == b;
    } else if IsSpace(a[0]) {
      assert s[1..] == a[1..] + [c] + b;
      WordsSplitAtSpace(a[1..], c, b);
    } else {
      WordRunAppend(a, [c] + b);
      assert s == a + ([c] + b);
      var n := WordRun(a);
      assert s[..n] == a[..n];
      assert s[n..] == a[n..] + [c] + b;
      WordsSplitAtSpace(a[n..], c, b);
    }
  }

  /** A non-empty run without whitespace is one word. */
  lemma WordsOfWord(w: string)
    requires |w| > 0 && forall i :: 0 <= i < |w| ==> !IsSpace(w[i])
    ensures Words(w) == [w]
  {
    WordRunAll(w);
    assert w[..|w|] == w;
    assert w[|w|..] == [];
  }

  lemma WordRunAll(w: string)
    requires forall i :: 0 <= i < |w| ==> !IsSpace(w[i])
    ensures WordRun(w) == |w|
  {
    if |w| > 0 {
      WordRunAll(w[1..]);
    }
  }

  lemma {:induction false} KeywordsOfAppend(a: seq<string>, b: seq<string>)
    ensures KeywordsOf(a + b) == KeywordsOf(a) + KeywordsOf(b)
  {
    if a != [] {
      var head := if |a[0]| > 2 then [Lower(a[0])] else [];
      assert (a + b)[0] == a[0] && (a + b)[1..] == a[1..] + b;
      assert KeywordsOf(a + b) == head + KeywordsOf(a[1..] + b);
      KeywordsOfAppend(a[1..], b);
    } else {
      assert a + b == b;
    }
  }

  /** The keywords are the lowercased words longer than two characters, in order. */
  lemma {:induction false} KeywordsOfSpec(ws: seq<string>)
    ensures |KeywordsOf(ws)| <= |ws|
    ensures forall k :: k in KeywordsOf(ws) <==> exists w :: w in ws && |w| > 2 && k == Lower(w)
  {
    if ws != [] {
      KeywordsOfSpec(ws[1..]);
      assert ws == [ws[0]] + ws[1..];
    }
  }

  /**
   * Every keyword of a question is a lowercased word of it longer than two
   * characters, and every such word gives a keyword; keywords hold no
   * whitespace and no upper-case ASCII letter.
   */
  lemma KeywordsShape(q: string)
    ensures forall k :: k in Keywords(q) <==> exists w :: w in Words(q) && |w| > 2 && k == Lower(w)
    ensures forall k :: k in Keywords(q) ==>
              |k| > 2 && forall i :: 0 <= i < |k| ==> !IsSpace(k[i]) && !IsUpper(k[i])
  {
    KeywordsOfSpec(Words(q));
    forall k | k in Keywords(q)
      ensures |k| > 2 && forall i :: 0 <= i < |k| ==> !IsSpace(k[i]) && !IsUpper(k[i])
    {
      var w :| w in Words(q) && |w| > 2 && k == Lower(w);
      assert forall i :: 0 <= i < |w| ==> !IsSpace(w[i]);
      forall i | 0 <= i < |k| ensures !IsSpace(k[i]) && !IsUpper(k[i]) {
        assert k[i] == LowerChar(w[i]);
      }
    }
  }

  /** Keywords of two parts of a question joined by whitespace. */
  lemma KeywordsSplitAtSpace(a: string, c: char, b: string)
    requires IsSpace(c)
    ensures Keywords(a + [c] + b) == Keywords(a) + Keywords(b)
  {
    WordsSplitAtSpace(a, c, b);
    KeywordsOfAppend(Words(a), Words(b));
  }

  /** The keywords of one word: its lowercase if it is longer than two characters, else none. */
  lemma KeywordsOfOneWord(w: string)
    requires |w| > 0 && forall i :: 0 <= i < |w| ==> !IsSpace(w[i])
    ensures Keywords(w) == if |w| > 2 then [Lower(w)] else []
  {
    WordsOfWord(w);
    assert KeywordsOf([w])
      == (if |w| > 2 then [Lower(w)] else []) + KeywordsOf([w][1..]);
  }

  /** A word, a space and more text: the word's keyword, if any, comes first. */
  lemma KeywordsCons(w: string, rest: string)
    requires |w| > 0 && forall i :: 0 <= i < |w| ==> !IsSpace(w[i])
    ensures Keywords(w + " " + rest) == (if |w| > 2 then [Lower(w)] else []) + Keywords(rest)
  {
    assert w + " " + rest == w + [' '] + rest;
    KeywordsSplitAtSpace(w, ' ', rest);
    KeywordsOfOneWord(w);
  }

  /** The positions of the keywords that occur in the lowercased piece. */
  function Hits(piece: string, keywords: seq<string>): set<nat> {
    set i: nat | i < |keywords| && Contains(keywords[i], Lower(piece))
  }

  /** The score is the number of keyword positions whose keyword occurs in the piece. */
  lemma {:induction false} ScoreCountsHits(piece: string, keywords: seq<string>)
    ensures Score(piece, keywords) == |Hits(piece, keywords)|
    decreases |keywords|
  {
    if keywords != [] {
      var n := |keywords| - 1;
      var init := keywords[..n];
      ScoreCountsHits(piece, init);
      if Contains(keywords[n], Lower(piece)) {
        assert Hits(piece, keywords) == Hits(piece, init) + {n};
      } else {
        assert Hits(piece, keywords) == Hits(piece, init);
      }
    }
  }

  /** A keyword scores in a piece exactly when it is a substring of the lowercased piece. */
  lemma ScoreOne(piece: string, k: string)
    ensures Score(piece, [k]) == 1 <==> exists i :: OccursAt(k, Lower(piece), i)
  {
    ContainsIff(k, Lower(piece));
    assert [k][..0] == [];
  }

  /** Scoring a concatenation of keyword lists adds the scores. */
  lemma {:induction false} ScoreAppend(piece: string, a: seq<string>, b: seq<string>)
    ensures Score(piece, a + b) == Score(piece, a) + Score(piece, b)
    decreases |b|
  {
    if b == [] {
      assert a + b == a;
    } else {
      var n := |b| - 1;
      assert (a + b)[..|a + b| - 1] == a + b[..n];
      ScoreAppend(piece, a, b[..n]);
    }
  }

  /** The answer is a piece of the split, so it is a substring of the text. */
  lemma FindAnswerFromText(text: string, question: string)
    ensures FindAnswer(text, question) in SplitSentences(text).pieces
    ensures exists i :: OccursAt(FindAnswer(text, question), text, i)
  {
    var pieces := SplitSentences(text).pieces;
    var k := FirstMaxIndex(Scores(pieces, Keywords(question)));
    assert FindAnswer(text, question) == pieces[k];
    PiecesComeFromText(text, k);
  }

  /** With no keywords all scores tie at zero and the first piece is returned. */
  lemma FindAnswerNoKeywords(text: string, question: string)
    requires Keywords(question) == []
    ensures FindAnswer(text, question) == SplitSentences(text).pieces[0]
  {
    var pieces := SplitSentences(text).pieces;
    var scores := Scores(pieces, []);
    var k := FirstMaxIndex(scores);
    assert FindAnswer(text, question) == pieces[k];
  }

  /**
   * An empty text is one empty piece, so the answer is the empty string: the
   * fallback message is never reached by an empty text.
   */
  lemma FindAnswerEmptyText(question: string)
    ensures FindAnswer("", question) == ""
  {
    SplitEmpty();
    FindAnswerFromText("", question);
  }

  /** A question whose words are all at most two characters long has no keywords. */
  lemma ShortWordsNoKeywords(q: string)
    requires forall w :: w in Words(q) ==> |w| <= 2
    ensures Keywords(q) == []
  {
    KeywordsOfShort(Words(q));
  }

  lemma KeywordsOfShort(ws: seq<string>)
    requires forall w :: w in ws ==> |w| <= 2
    ensures KeywordsOf(ws) == []
  {
    if ws != [] {
      assert ws[0] in ws;
      KeywordsOfShort(ws[1..]);
    }
  }

  /** A text without any split point is its own answer, whatever the question. */
  lemma FindAnswerUnsplit(text: string, question: string)
    requires NoSplitPoint(text)
    ensures FindAnswer(text, question) == text
  {
    NoSplitPointOnePiece(text);
    FindAnswerFromText(text, question);
  }
}
