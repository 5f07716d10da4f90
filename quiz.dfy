/**
 * `generate_quiz_questions`: for each sentence, keep the tokens tagged as
 * nouns that are longer than three characters, pick one, delete every
 * occurrence of it from the sentence, and collect (question, answer) pairs
 * until `num_questions` of them exist. Sentence tokenizing, word tokenizing
 * with part-of-speech tagging, and the random pick are inputs of the model.
 */
module Quiz {
  import opened Wrappers
  import opened OptionSeq
  import opened Removal

  /** A (question, answer) pair. */
  datatype QuizItem = QuizItem(question: string, answer: string)

  /** A `(word, tag)` pair as produced by the part-of-speech tagger. */
  type TaggedToken = (string, string)

  /** `tag.startswith('NN') and len(word) > 3`. */
  predicate IsNounCandidate(t: TaggedToken) {
    "NN" <= t.1 && |t.0| > 3
  }

  /** `[word for word, tag in tagged if tag.startswith('NN') and len(word) > 3]`. */
  function Nouns(tagged: seq<TaggedToken>): (ns: seq<string>)
    ensures |ns| <= |tagged|
    ensures forall k :: 0 <= k < |ns| ==> |ns[k]| > 3
  {
    if tagged == [] then []
    else (if IsNounCandidate(tagged[0]) then [tagged[0].0] else []) + Nouns(tagged[1..])
  }

  /**
   * The random source is any function `choose`: the index `random.choice`
   * draws among the `n` candidates of sentence `i` is `choose(i, n) % n`.
   * Every function gives a valid draw, and every draw is given by some function.
   */
  function Pick(choose: (nat, nat) -> nat, i: nat, n: nat): (k: nat)
    requires n > 0
    ensures k < n
  {
    choose(i, n) % n
  }

  /** The pair sentence number `i` contributes, if it has a noun candidate. */
  function ItemFor(sentence: string, i: nat, posTag: string -> seq<TaggedToken>,
                   choose: (nat, nat) -> nat): (r: Option<QuizItem>)
    ensures r.None? <==> Nouns(posTag(sentence)) == []
    ensures r.Some? ==> r.value.answer in Nouns(posTag(sentence)) && |r.value.answer| > 3
                        && r.value.question == RemoveAll(sentence, r.value.answer)
  {
    var nouns := Nouns(posTag(sentence));
    if |nouns| == 0 then None
    else
      var noun := nouns[Pick(choose, i, |nouns|)];
      Some(QuizItem(RemoveAll(sentence, noun), noun))
  }

  /** What each sentence contributes, sentence by sentence. */
  function Contributions(sentences: seq<string>, posTag: string -> seq<TaggedToken>,
                         choose: (nat, nat) -> nat): (c: seq<Option<QuizItem>>)
    ensures |c| == |sentences|
    ensures forall i :: 0 <= i < |c| ==> c[i] == ItemFor(sentences[i], i, posTag, choose)
  {
    seq(|sentences|, i requires 0 <= i < |sentences| => ItemFor(sentences[i], i, posTag, choose))
  }

  /** The pairs of the first `n` sentences, with no limit on their number. */
  function AllItems(sentences: seq<string>, n: nat, posTag: string -> seq<TaggedToken>,
                    choose: (nat, nat) -> nat): (items: seq<QuizItem>)
    requires n <= |sentences|
    ensures |items| <= n
  {
    Somes(Contributions(sentences, posTag, choose)[..n])
  }

  /**
   * What the loop returns: for a positive limit, the first `numQuestions` of
   * all pairs (all of them if there are fewer); otherwise the pair of the
   * first sentence alone, because the limit check runs after the first append.
   */
  function QuizSpec(sentences: seq<string>, numQuestions: int, posTag: string -> seq<TaggedToken>,
                    choose: (nat, nat) -> nat): (q: seq<QuizItem>)
    ensures |q| <= |sentences|
    ensures numQuestions >= 1 ==> |q| <= numQuestions
    ensures numQuestions <= 0 ==> |q| <= 1
  {
    if numQuestions <= 0 then
      AllItems(sentences, if |sentences| == 0 then 0 else 1, posTag, choose)
    else
      var all := AllItems(sentences, |sentences|, posTag, choose);
      if |all| <= numQuestions then all else all[..numQuestions]
  }

  /** The pairs of fewer sentences are a prefix of the pairs of more. */
  lemma AllItemsPrefix(sentences: seq<string>, m: nat, n: nat,
                       posTag: string -> seq<TaggedToken>, choose: (nat, nat) -> nat)
    requires m <= n <= |sentences|
    ensures AllItems(sentences, m, posTag, choose) <= AllItems(sentences, n, posTag, choose)
  {
    var c := Contributions(sentences, posTag, choose);
    SomesPrefix(c[..n], m);
    assert c[..n][..m] == c[..m];
  }

  /** One more sentence adds its pair, if it has one. */
  lemma AllItemsStep(sentences: seq<string>, i: nat, posTag: string -> seq<TaggedToken>,
                     choose: (nat, nat) -> nat)
    requires i < |sentences|
    ensures var o := ItemFor(sentences[i], i, posTag, choose);
      AllItems(sentences, i + 1, posTag, choose)
      == AllItems(sentences, i, posTag, choose) + (if o.Some? then [o.value] else [])
  {
    var c := Contributions(sentences, posTag, choose);
    assert c[..i + 1] == c[..i] + [c[i]];
    SomesSnoc(c[..i], c[i]);
  }

  /**
   * `generate_quiz_questions(text, num_questions)` over the given tokenizer,
   * tagger and random source.
   */
  method GenerateQuizQuestions(text: string, numQuestions: int,
                               sentTokenize: string -> seq<string>,
                               posTag: string -> seq<TaggedToken>,
                               choose: (nat, nat) -> nat)
    returns (questions: seq<QuizItem>)
    ensures questions == QuizSpec(sentTokenize(text), numQuestions, posTag, choose)
  {
    var sentences := sentTokenize(text);
    questions := [];
    var i := 0;
    while i < |sentences|
      invariant 0 <= i <= |sentences|
      invariant questions == AllItems(sentences, i, posTag, choose)
      invariant i > 0 ==> |questions| < numQuestions
    {
      var sentence := sentences[i];
      var nouns := Nouns(posTag(sentence));
      AllItemsStep(sentences, i, posTag, choose);
      if |nouns| > 0 {
        var chosenNoun := nouns[Pick(choose, i, |nouns|)];
        var question := RemoveAll(sentence, chosenNoun);
        questions := questions + [QuizItem(question, chosenNoun)];
      }
      if |questions| >= numQuestions {
        QuizSpecAtStop(sentences, i, numQuestions, posTag, choose);
        return;
      }
      i := i + 1;
    }
    QuizSpecAtEnd(sentences, numQuestions, posTag, choose);
  }

  /** Stopping right after sentence `i` brought the count to the limit yields the specified pairs. */
  lemma QuizSpecAtStop(sentences: seq<string>, i: nat, numQuestions: int,
                       posTag: string -> seq<TaggedToken>, choose: (nat, nat) -> nat)
    requires i < |sentences|
    requires |AllItems(sentences, i + 1, posTag, choose)| >= numQuestions
    requires i > 0 ==> |AllItems(sentences, i, posTag, choose)| < numQuestions
    ensures AllItems(sentences, i + 1, posTag, choose) == QuizSpec(sentences, numQuestions, posTag, choose)
  {
    if numQuestions > 0 {
      AllItemsPrefix(sentences, i + 1, |sentences|, posTag, choose);
      if i > 0 {
        AllItemsStep(sentences, i, posTag, choose);
      }
    }
  }

  /** Running out of sentences below the limit yields the specified pairs. */
  lemma QuizSpecAtEnd(sentences: seq<string>, numQuestions: int,
                      posTag: string -> seq<TaggedToken>, choose: (nat, nat) -> nat)
    requires |sentences| > 0 ==> |AllItems(sentences, |sentences|, posTag, choose)| < numQuestions
    ensures AllItems(sentences, |sentences|, posTag, choose) == QuizSpec(sentences, numQuestions, posTag, choose)
  {
  }
}
