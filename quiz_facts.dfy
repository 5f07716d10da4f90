/** What the generated quiz pairs are, where they come from, and how many there are. */
module QuizFacts {
  import opened Wrappers
  import opened Chars
  import opened OptionSeq
  import opened Removal
  import opened Quiz

  /** A word is a noun candidate of the tagged tokens: some token carries it with an `NN…` tag and is long enough. */
  predicate IsCandidateWord(w: string, tagged: seq<TaggedToken>) {
    exists j :: 0 <= j < |tagged| && tagged[j].0 == w && IsNounCandidate(tagged[j])
  }

  /** The noun list holds exactly the candidate words. */
  lemma {:induction false} NounsSpec(tagged: seq<TaggedToken>, w: string)
    ensures w in Nouns(tagged) <==> IsCandidateWord(w, tagged)
  {
    if tagged != [] {
      NounsSpec(tagged[1..], w);
      assert forall j :: 0 < j < |tagged| ==> tagged[j] == tagged[1..][j - 1];
      if IsCandidateWord(w, tagged) {
        var j :| 0 <= j < |tagged| && tagged[j].0 == w && IsNounCandidate(tagged[j]);
        if j > 0 {
          assert tagged[1..][j - 1] == tagged[j];
        }
      }
    }
  }

  /** The noun list is empty exactly when no token is a candidate. */
  lemma {:induction false} NounsEmpty(tagged: seq<TaggedToken>)
    ensures |Nouns(tagged)| == 0 <==> forall j :: 0 <= j < |tagged| ==> !IsNounCandidate(tagged[j])
  {
    if tagged != [] {
      NounsEmpty(tagged[1..]);
      assert forall j :: 0 < j < |tagged| ==> tagged[j] == tagged[1..][j - 1];
    }
  }

  /**
   * A pair of a sentence: the answer is a noun candidate of the sentence's
   * tagged tokens and the question is the sentence with every occurrence of
   * the answer deleted.
   */
  predicate IsItemOf(item: QuizItem, sentence: string, tagged: seq<TaggedToken>) {
    && IsCandidateWord(item.answer, tagged)
    && |item.answer| > 3
    && item.question == RemoveAll(sentence, item.answer)
  }

  /** Some token of the sentence is a noun candidate. */
  predicate HasCandidate(sentence: string, posTag: string -> seq<TaggedToken>) {
    exists j :: 0 <= j < |posTag(sentence)| && IsNounCandidate(posTag(sentence)[j])
  }

  /** A sentence contributes a pair exactly when it has a candidate, and that pair is one of its pairs. */
  lemma ItemForSpec(sentence: string, i: nat, posTag: string -> seq<TaggedToken>, choose: (nat, nat) -> nat)
    ensures var o := ItemFor(sentence, i, posTag, choose);
      && (o.Some? <==> HasCandidate(sentence, posTag))
      && (o.Some? ==> IsItemOf(o.value, sentence, posTag(sentence)))
  {
    var tagged := posTag(sentence);
    NounsEmpty(tagged);
    var nouns := Nouns(tagged);
    if |nouns| > 0 {
      var noun := nouns[Pick(choose, i, |nouns|)];
      NounsSpec(tagged, noun);
    }
  }

  /** The question of a pair: the sentence cut at every occurrence of the answer, glued back without it. */
  lemma ItemQuestionShape(item: QuizItem, sentence: string, tagged: seq<TaggedToken>)
    requires IsItemOf(item, sentence, tagged)
    ensures var chunks := SplitOn(sentence, item.answer);
      && JoinWith(chunks, item.answer) == sentence
      && Leftmost(chunks, item.answer)
      && item.question == Concat(chunks)
      && |sentence| == |item.question| + (|chunks| - 1) * |item.answer|
  {
    RemoveAllDeletesEveryOccurrence(sentence, item.answer);
  }

  /** The sentence positions that contribute a pair, in order. */
  function Sources(sentences: seq<string>, posTag: string -> seq<TaggedToken>,
                   choose: (nat, nat) -> nat): seq<nat>
  {
    SomeIndices(Contributions(sentences, posTag, choose))
  }

  /**
   * Every pair, with no limit, comes from its own sentence: pair `k` is a pair
   * of sentence `Sources[k]`, the sources rise strictly (at most one pair per
   * sentence, in sentence order), and a sentence is a source exactly when it
   * has a noun candidate.
   */
  lemma AllItemsOrigin(sentences: seq<string>, posTag: string -> seq<TaggedToken>, choose: (nat, nat) -> nat)
    ensures var items, src := AllItems(sentences, |sentences|, posTag, choose), Sources(sentences, posTag, choose);
      && |src| == |items|
      && (forall k :: 0 <= k < |src| ==>
            src[k] < |sentences| && IsItemOf(items[k], sentences[src[k]], posTag(sentences[src[k]])))
      && (forall k, l :: 0 <= k < l < |src| ==> src[k] < src[l])
      && (forall i :: 0 <= i < |sentences| ==> (i in src <==> HasCandidate(sentences[i], posTag)))
  {
    var c := Contributions(sentences, posTag, choose);
    assert c[..|sentences|] == c;
    SomeIndicesSpec(c);
    var items, src := Somes(c), SomeIndices(c);
    forall k | 0 <= k < |src|
      ensures IsItemOf(items[k], sentences[src[k]], posTag(sentences[src[k]]))
    {
      ItemForSpec(sentences[src[k]], src[k], posTag, choose);
    }
    forall i | 0 <= i < |sentences|
      ensures i in src <==> HasCandidate(sentences[i], posTag)
    {
      ItemForSpec(sentences[i], i, posTag, choose);
    }
  }

  /** The returned pairs are the first ones of all pairs. */
  lemma QuizIsPrefix(sentences: seq<string>, numQuestions: int, posTag: string -> seq<TaggedToken>,
                     choose: (nat, nat) -> nat)
    ensures QuizSpec(sentences, numQuestions, posTag, choose) <= AllItems(sentences, |sentences|, posTag, choose)
  {
    if numQuestions <= 0 && |sentences| > 0 {
      AllItemsPrefix(sentences, 1, |sentences|, posTag, choose);
    }
  }

  /**
   * Each returned pair comes from its own sentence, in sentence order: pair
   * `k` is a pair of sentence `Sources[k]`, and the sources rise strictly.
   */
  lemma QuizOrigin(sentences: seq<string>, numQuestions: int, posTag: string -> seq<TaggedToken>,
                   choose: (nat, nat) -> nat)
    ensures var q, src := QuizSpec(sentences, numQuestions, posTag, choose), Sources(sentences, posTag, choose);
      && |q| <= |src|
      && (forall k :: 0 <= k < |q| ==>
            src[k] < |sentences| && IsItemOf(q[k], sentences[src[k]], posTag(sentences[src[k]])))
      && (forall k, l :: 0 <= k < l < |q| ==> src[k] < src[l])
  {
    QuizIsPrefix(sentences, numQuestions, posTag, choose);
    AllItemsOrigin(sentences, posTag, choose);
  }

  /** With a non-positive limit the pair of the first sentence, if it has one, is still returned. */
  lemma QuizNonPositiveLimit(sentences: seq<string>, numQuestions: int, posTag: string -> seq<TaggedToken>,
                             choose: (nat, nat) -> nat)
    requires numQuestions <= 0 && |sentences| > 0
    ensures var q := QuizSpec(sentences, numQuestions, posTag, choose);
      && (|q| == 1 <==> HasCandidate(sentences[0], posTag))
      && (|q| == 1 ==> IsItemOf(q[0], sentences[0], posTag(sentences[0])))
  {
    AllItemsStep(sentences, 0, posTag, choose);
    ItemForSpec(sentences[0], 0, posTag, choose);
  }

  /** When there are no more pairs than the limit, all of them are returned. */
  lemma QuizShortInput(sentences: seq<string>, numQuestions: int, posTag: string -> seq<TaggedToken>,
                       choose: (nat, nat) -> nat)
    requires numQuestions >= 1
    requires |AllItems(sentences, |sentences|, posTag, choose)| <= numQuestions
    ensures QuizSpec(sentences, numQuestions, posTag, choose) == AllItems(sentences, |sentences|, posTag, choose)
  {
  }

  /**
   * Processing stops at the first sentence that brings the count to the
   * limit: the result is the pairs of the sentences up to that one.
   */
  lemma QuizStopsAtLimit(sentences: seq<string>, numQuestions: int, m: nat, posTag: string -> seq<TaggedToken>,
                         choose: (nat, nat) -> nat)
    requires numQuestions >= 1 && 0 < m <= |sentences|
    requires |AllItems(sentences, m, posTag, choose)| >= numQuestions
    requires |AllItems(sentences, m - 1, posTag, choose)| < numQuestions
    ensures QuizSpec(sentences, numQuestions, posTag, choose) == AllItems(sentences, m, posTag, choose)
  {
    var i := m - 1;
    assert i + 1 == m;
    QuizSpecAtStop(sentences, i, numQuestions, posTag, choose);
  }

  /**
   * With a positive limit no pair comes back exactly when no sentence has a
   * noun candidate; in particular short words only give an empty quiz, not an error.
   */
  lemma QuizEmpty(sentences: seq<string>, numQuestions: int, posTag: string -> seq<TaggedToken>,
                  choose: (nat, nat) -> nat)
    requires numQuestions >= 1
    ensures QuizSpec(sentences, numQuestions, posTag, choose) == []
      <==> forall i :: 0 <= i < |sentences| ==> !HasCandidate(sentences[i], posTag)
  {
    var all := AllItems(sentences, |sentences|, posTag, choose);
    var q := QuizSpec(sentences, numQuestions, posTag, choose);
    assert q == (if |all| <= numQuestions then all else all[..numQuestions]);
    assert q == [] <==> all == [];
    NoPairsNoCandidates(sentences, posTag, choose);
  }

  /** There are no pairs at all exactly when no sentence has a noun candidate. */
  lemma NoPairsNoCandidates(sentences: seq<string>, posTag: string -> seq<TaggedToken>,
                            choose: (nat, nat) -> nat)
    ensures AllItems(sentences, |sentences|, posTag, choose) == []
      <==> forall i :: 0 <= i < |sentences| ==> !HasCandidate(sentences[i], posTag)
  {
    AllItemsOrigin(sentences, posTag, choose);
    var src := Sources(sentences, posTag, choose);
    if src != [] {
      assert src[0] in src;
    }
  }
}
