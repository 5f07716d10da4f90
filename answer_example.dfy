/**
 * A worked instance of `find_answer`: the text "The cat sat on the mat. It
 * was sunny." and the question "Where did the cat sit?". The question's
 * keywords are "where", "did", "the", "cat" and "sit?" (the question mark
 * stays on the last word); the first sentence contains "the" and "cat", the
 * second contains none, so the first sentence is the answer.
 */
module AnswerExample {
  import opened Chars
  import opened SentenceSplit
  import opened SentenceSplitFacts
  import opened AnswerFinder
  import opened AnswerFinderFacts

  const Text: string := "The cat sat on the mat. It was sunny."
  const First: string := "The cat sat on the mat."
  const Second: string := "It was sunny."
  const Question: string := "Where did the cat sit?"

  /** A piece whose only terminal character is its last one holds no split point. */
  lemma NoSplitInside(body: string, end: char)
    requires forall i :: 0 <= i < |body| ==> !IsTerminal(body[i])
    ensures NoSplitPoint(body + [end])
  {
    var p := body + [end];
    forall j | 0 < j < |p|
      ensures !(IsTerminal(p[j - 1]) && p[j] == ' ')
    {
      assert p[j - 1] == body[j - 1];
    }
  }

  lemma NoTerminal(body: string)
    requires body == "The cat sat on the mat" || body == "It was sunny"
    ensures forall i :: 0 <= i < |body| ==> !IsTerminal(body[i])
  {
  }

  /** The first sentence ends in its only terminal character. */
  lemma FirstPieceShape()
    ensures NoSplitPoint(First) && EndsTerminal(First)
  {
    assert First == "The cat sat on the mat" + ".";
    NoTerminal("The cat sat on the mat");
    NoSplitInside("The cat sat on the mat", '.');
  }

  /** The second sentence ends in its only terminal character and starts with a letter. */
  lemma SecondPieceShape()
    ensures NoSplitPoint(Second) && !StartsWithSpace(Second)
  {
    assert Second == "It was sunny" + ".";
    NoTerminal("It was sunny");
    NoSplitInside("It was sunny", '.');
  }

  lemma TextShape()
    ensures First + " " + Second == Text
  {
  }

  /** Two pieces joined by one space, where only the space is a split point, are the split. */
  lemma TwoPieces(text: string, p: string, q: string)
    requires NoSplitPoint(p) && EndsTerminal(p)
    requires NoSplitPoint(q) && !StartsWithSpace(q)
    requires p + " " + q == text
    ensures SplitSentences(text).pieces == [p, q]
  {
    var r := Split([p, q], [" "]);
    assert Join(r.pieces, r.seps) == p + " " + q;
    assert IsSpaceRun(" ");
    assert WellFormed(r);
    SplitCharacterized(text, r);
  }

  /** The text splits after "mat." only. */
  lemma ExampleSplit()
    ensures SplitSentences(Text).pieces == [First, Second]
  {
    FirstPieceShape();
    SecondPieceShape();
    TextShape();
    TwoPieces(Text, First, Second);
  }

  /** The keywords of "the cat sit?". */
  lemma KeywordsLastThree(c: string, d: string, e: string)
    requires c == "the" && d == "cat" && e == "sit?"
    ensures Keywords(c + " " + (d + " " + e)) == [c, d, e]
  {
    KeywordsOfOneWord(e);
    assert Lower(e) == e;
    KeywordsCons(d, e);
    assert Lower(d) == d;
    KeywordsCons(c, d + " " + e);
    assert Lower(c) == c;
  }

  /** Two leading words, separated by single spaces, in front of text with known keywords. */
  lemma KeywordsChain(a: string, b: string, rest: string, tail: seq<string>)
    requires a == "Where" && b == "did" && Keywords(rest) == tail
    ensures Keywords(a + " " + (b + " " + rest)) == ["where", b] + tail
  {
    KeywordsCons(b, rest);
    assert Lower(b) == b;
    KeywordsCons(a, b + " " + rest);
    assert Lower(a) == "where";
  }

  /** The keywords of five words of the question's shape. */
  lemma FiveKeywords(q: string, a: string, b: string, c: string, d: string, e: string)
    requires a == "Where" && b == "did" && c == "the" && d == "cat" && e == "sit?"
    requires q == a + " " + (b + " " + (c + " " + (d + " " + e)))
    ensures Keywords(q) == ["where", b, c, d, e]
  {
    KeywordsLastThree(c, d, e);
    KeywordsChain(a, b, c + " " + (d + " " + e), [c, d, e]);
  }

  /** The question's keywords, with punctuation kept on the last word. */
  lemma ExampleKeywords()
    ensures Keywords(Question) == ["where", "did", "the", "cat", "sit?"]
  {
    FiveKeywords(Question, "Where", "did", "the", "cat", "sit?");
  }

  /** A keyword holding a character the piece lacks does not occur in it. */
  lemma AbsentChar(k: string, t: string, c: char)
    requires c in k && forall i :: 0 <= i < |t| ==> t[i] != c
    ensures !Contains(k, t)
  {
    ContainsIff(k, t);
  }

  /** Scoring one more keyword. */
  lemma ScoreSnoc(piece: string, ks: seq<string>, k: string)
    ensures Score(piece, ks + [k]) == Score(piece, ks) + (if Contains(k, Lower(piece)) then 1 else 0)
  {
    assert (ks + [k])[..|ks|] == ks;
  }

  /** Scoring the question's keywords, one by one. */
  lemma Score5(piece: string, a: string, b: string, c: string, d: string, e: string)
    ensures Score(piece, [a, b, c, d, e])
      == (if Contains(a, Lower(piece)) then 1 else 0) + (if Contains(b, Lower(piece)) then 1 else 0)
       + (if Contains(c, Lower(piece)) then 1 else 0) + (if Contains(d, Lower(piece)) then 1 else 0)
       + (if Contains(e, Lower(piece)) then 1 else 0)
  {
    ScoreSnoc(piece, [], a);
    assert [] + [a] == [a];
    ScoreSnoc(piece, [a], b);
    assert [a] + [b] == [a, b];
    ScoreSnoc(piece, [a, b], c);
    assert [a, b] + [c] == [a, b, c];
    ScoreSnoc(piece, [a, b, c], d);
    assert [a, b, c] + [d] == [a, b, c, d];
    ScoreSnoc(piece, [a, b, c, d], e);
    assert [a, b, c, d] + [e] == [a, b, c, d, e];
  }

  /** The characters the lowercased first sentence lacks. */
  lemma FirstLacks(lp: string)
    requires lp == "the cat sat on the mat."
    ensures forall i :: 0 <= i < |lp| ==> lp[i] != 'w' && lp[i] != 'd' && lp[i] != '?'
  {
  }

  /** The characters the lowercased second sentence lacks. */
  lemma SecondLacks(lp: string)
    requires lp == "it was sunny."
    ensures forall i :: 0 <= i < |lp| ==> lp[i] != 'h' && lp[i] != 'd' && lp[i] != 'c' && lp[i] != '?'
  {
  }

  lemma FirstHasThe(lp: string, c: string)
    requires lp == "the cat sat on the mat." && c == "the"
    ensures Contains(c, lp)
  {
    assert lp == c + " cat sat on the mat.";
  }

  lemma FirstHasCat(lp: string, d: string)
    requires lp == "the cat sat on the mat." && d == "cat"
    ensures Contains(d, lp)
  {
    assert lp[4..7] == d;
    assert OccursAt(d, lp, 4);
    ContainsIff(d, lp);
  }

  /** Which keywords the lowercased first sentence contains. */
  lemma FirstHits(lp: string, a: string, b: string, c: string, d: string, e: string)
    requires lp == "the cat sat on the mat."
    requires a == "where" && b == "did" && c == "the" && d == "cat" && e == "sit?"
    ensures !Contains(a, lp) && !Contains(b, lp) && Contains(c, lp) && Contains(d, lp) && !Contains(e, lp)
  {
    FirstHasThe(lp, c);
    FirstHasCat(lp, d);
    FirstLacks(lp);
    assert a[0] == 'w' && b[0] == 'd' && e[3] == '?';
    AbsentChar(a, lp, 'w');
    AbsentChar(b, lp, 'd');
    AbsentChar(e, lp, '?');
  }

  /** Which keywords the lowercased second sentence contains: none. */
  lemma SecondHits(lp: string, a: string, b: string, c: string, d: string, e: string)
    requires lp == "it was sunny."
    requires a == "where" && b == "did" && c == "the" && d == "cat" && e == "sit?"
    ensures !Contains(a, lp) && !Contains(b, lp) && !Contains(c, lp) && !Contains(d, lp) && !Contains(e, lp)
  {
    SecondLacks(lp);
    assert a[1] == 'h' && b[0] == 'd' && c[1] == 'h' && d[0] == 'c' && e[3] == '?';
    AbsentChar(a, lp, 'h');
    AbsentChar(b, lp, 'd');
    AbsentChar(c, lp, 'h');
    AbsentChar(d, lp, 'c');
    AbsentChar(e, lp, '?');
  }

  /** The first sentence contains "the" and "cat" and no other keyword. */
  lemma ScoreFirst(p: string, ks: seq<string>)
    requires p == First && ks == ["where", "did", "the", "cat", "sit?"]
    ensures Score(p, ks) == 2
  {
    var lp := Lower(p);
    assert lp == "the cat sat on the mat.";
    FirstHits(lp, ks[0], ks[1], ks[2], ks[3], ks[4]);
    Score5(p, ks[0], ks[1], ks[2], ks[3], ks[4]);
    assert ks == [ks[0], ks[1], ks[2], ks[3], ks[4]];
  }

  /** The second sentence contains no keyword. */
  lemma ScoreSecond(p: string, ks: seq<string>)
    requires p == Second && ks == ["where", "did", "the", "cat", "sit?"]
    ensures Score(p, ks) == 0
  {
    var lp := Lower(p);
    assert lp == "it was sunny.";
    SecondHits(lp, ks[0], ks[1], ks[2], ks[3], ks[4]);
    Score5(p, ks[0], ks[1], ks[2], ks[3], ks[4]);
    assert ks == [ks[0], ks[1], ks[2], ks[3], ks[4]];
  }

  /** With two pieces, the first wins unless the second scores strictly higher. */
  lemma AnswerOfTwo(text: string, question: string, p: string, q: string)
    requires SplitSentences(text).pieces == [p, q]
    requires Score(p, Keywords(question)) >= Score(q, Keywords(question))
    ensures FindAnswer(text, question) == p
  {
    var s := Scores([p, q], Keywords(question));
    assert s[0] >= s[1];
  }

  /** The answer to "Where did the cat sit?" is the first sentence. */
  lemma ExampleAnswer()
    ensures FindAnswer(Text, Question) == First
  {
    ExampleSplit();
    ExampleKeywords();
    ScoreFirst(First, Keywords(Question));
    ScoreSecond(Second, Keywords(Question));
    AnswerOfTwo(Text, Question, First, Second);
  }
}
