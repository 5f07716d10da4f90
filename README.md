# text-analyzer heuristics in Dafny

This project models the text heuristics of the text-analyzer application (`text_understanding.py`). Each one becomes Dafny functions and methods, with proofs of what they do:

- **Answering.** `find_answer` cuts the text into sentence pieces with the regular expression `(?<=[.!?]) +`. It takes the question's words longer than two characters, lowercased, as keywords. It scores each piece by how many keywords occur in it, and returns the first piece with the highest score.
- **Quiz generation.** `generate_quiz_questions` keeps, for every sentence, the tokens tagged as nouns that are longer than three characters. It picks one and deletes every occurrence of it from the sentence. The pairs (question, answer) are collected until `num_questions` of them exist.
- **Quiz text.** The downloadable listing numbers the pairs from 1 as `Q<i>: <question>` and `A: <answer>`, with a blank line between entries.
- **Loading.** Text is loaded from an upload, which wins whenever it is present, or else from the text box. A PDF's text is the concatenation of its pages' text. The preview is cut at 800 characters.

Modules:

- `Chars`: character classes and helpers. These are the regex terminal class, Python's `str.split()` whitespace set, an ASCII `lower()`, the substring test `in`, and `"".join`.
- `SentenceSplit` and `SentenceSplitFacts`: the regex split. It is computed on a single left-to-right pass and returns its pieces together with the space runs it consumed. The facts module proves that this split is the only well-formed decomposition of the text.
- `AnswerFinder` and `AnswerFinderFacts`: keywords, scores, Python's first-maximum `max`, and `find_answer`.
- `AnswerExample`: a worked instance, the text "The cat sat on the mat. It was sunny." with the question "Where did the cat sit?".
- `Removal`: `str.replace(pat, "")`. It is described through `str.split(pat)` and `pat.join`.
- `OptionSeq`: generic collection of the present values of a list of optional values.
- `Quiz` and `QuizFacts`: the quiz loop as a method. It is proved equal to a specification function, and the specification's properties are proved as lemmas.
- `Listing`: the quiz text and its decimal numbering.
- `Loader`: loading from an upload or the text box, PDF page joining, and the preview.

The sentence tokenizer, the word tokenizer with part-of-speech tagger, and `random.choice` are parameters of the quiz method:

- `sentTokenize`, a function from the text to the sentences.
- `posTag`, a function from a sentence to (word, tag) pairs.
- `choose`, the random source. Sentence `i` with `n` candidates draws index `choose(i, n) % n`. Every function gives a valid draw, and every sequence of draws is given by some function.

The PDF reader and the UTF-8 decoder are likewise parameters of `Loader.LoadText`. Each returns `None` when the library would raise.

Some behaviours of the code that are easy to misread:

- **The split.** It happens only at runs of ASCII spaces after `.`, `!` or `?`, not at other whitespace: "Hi!\nMe." stays one piece.
- **The fallback answer.** `re.split` never returns an empty list, so the fallback of `max` cannot be reached. An empty text yields the empty string as its answer, not the fallback message (`AnswerFinderFacts.FindAnswerEmptyText`).
- **Punctuation in keywords.** Keywords keep punctuation: the last keyword of "Where did the cat sit?" is "sit?", not "sit".
- **The quiz question.** It is the sentence with every occurrence of the answer deleted (`str.replace(noun, "")`). The second variant of the script, `text_understanding (2).py:86`, replaces only the first occurrence, with `_`.
- **The quiz limit.** It is checked only after a sentence has been processed. So a `num_questions` of zero or less still returns the pair of the first sentence, if it has one. The app always calls with the default of 5.
- **Upload precedence.** An uploaded file wins over pasted text even when it yields no text, for example an unsupported MIME type or an empty PDF.

## Model

| member | source | states |
|---|---|---|
| Chars.Lower | text_understanding.py:78-79 | the result has the text's length, folds each ASCII upper-case letter to lower case, and holds no upper-case ASCII letter |
| Chars.Contains | text_understanding.py:79 | `k in t` as a left-to-right scan; its partner `Chars.ContainsIff` proves it holds exactly when `k` occurs in `t` at some index |
| Chars.ContainsIff | text_understanding.py:79 | the left-to-right scan used for `k in s` holds exactly when `k` occurs in `s` at some index |
| SentenceSplit.SplitSentences | text_understanding.py:77 | there is always at least one piece and one separator fewer than pieces, so `max` always has a candidate; its partners below prove the split lossless and unique |
| SentenceSplitFacts.SplitLossless | text_understanding.py:77 | joining the pieces with the consumed space runs gives back the text exactly |
| SentenceSplitFacts.SplitCharacterized | text_understanding.py:77 | a decomposition equals the computed split if and only if it joins back to the text and is well formed: separators are space runs, every piece but the last ends in `.`, `!` or `?`, no later piece starts with a space, and no piece holds a terminal followed by a space |
| SentenceSplitFacts.SplitShape | text_understanding.py:77 | there is at least one piece and one fewer separator; separators are non-empty runs of spaces; every piece but the last ends in a terminal character; no later piece starts with a space |
| SentenceSplitFacts.SplitEmpty | text_understanding.py:77 | the empty text splits into one empty piece |
| SentenceSplitFacts.NoSplitPointOnePiece | text_understanding.py:77 | a text with no space right after a terminal is not split |
| SentenceSplitFacts.SplitExample | text_understanding.py:77 | "Hi!\nMe. You" splits into "Hi!\nMe." and "You": a newline after `!` does not split |
| SentenceSplitFacts.PiecesComeFromText | text_understanding.py:77 | every piece occurs as a substring of the text |
| AnswerFinder.Words | text_understanding.py:78 | every word of `question.split()` is non-empty and holds no whitespace; `WordsConcat` and `WordsSplitAtSpace` say which words they are |
| AnswerFinder.Keywords | text_understanding.py:78 | there are no more keywords than words and every keyword is longer than two characters; `KeywordsOfSpec` and `KeywordsSplitAtSpace` say which keywords they are |
| AnswerFinder.FirstMaxIndex | text_understanding.py:79 | the index holds a maximal score and every earlier score is strictly smaller, as Python's `max` returns the first maximum |
| AnswerFinder.FindAnswer | text_understanding.py:76-80 | the answer is the piece at a first-maximum index of the pieces' scores |
| AnswerFinder.Score | text_understanding.py:79 | a score is at most the number of keywords |
| AnswerFinderFacts.WordsConcat | text_understanding.py:78 | the words concatenated are exactly the question's non-whitespace characters, in order |
| AnswerFinderFacts.WordsSplitAtSpace | text_understanding.py:78 | a whitespace character separates words: the words of `a + [c] + b` are the words of `a` followed by those of `b` |
| AnswerFinderFacts.KeywordsOfSpec | text_understanding.py:78 | a string is a keyword exactly when it is the lowercase of a word longer than two characters; there are no more keywords than words |
| AnswerFinderFacts.KeywordsShape | text_understanding.py:78 | a keyword is the lowercase of a question word longer than two characters and vice versa; keywords are longer than two, hold no whitespace and no upper-case ASCII letter |
| AnswerFinderFacts.KeywordsSplitAtSpace | text_understanding.py:78 | the keywords of two parts joined by whitespace are the keywords of each part, in order, duplicates kept |
| AnswerFinderFacts.KeywordsOfOneWord | text_understanding.py:78 | a single word gives its lowercase as keyword when it is longer than two characters, and no keyword otherwise |
| AnswerFinderFacts.KeywordsCons | text_understanding.py:78 | a word followed by a space and more text gives the word's keyword, if any, followed by the keywords of the rest, in order |
| AnswerFinderFacts.ScoreCountsHits | text_understanding.py:79 | the score is the number of keyword positions whose keyword occurs in the lowercased piece (duplicates count twice) |
| AnswerFinderFacts.ScoreOne | text_understanding.py:79 | one keyword scores 1 exactly when it occurs in the lowercased piece |
| AnswerFinderFacts.ScoreAppend | text_understanding.py:79 | scoring a concatenation of keyword lists adds the scores |
| AnswerFinderFacts.FindAnswerFromText | text_understanding.py:76-80 | the answer is one of the split pieces and occurs in the text, never fabricated |
| AnswerFinderFacts.FindAnswerNoKeywords | text_understanding.py:78-79 | without keywords all scores tie at zero and the first piece is returned |
| AnswerFinderFacts.ShortWordsNoKeywords | text_understanding.py:78 | a question whose words are all at most two characters long has no keywords |
| AnswerFinderFacts.FindAnswerUnsplit | text_understanding.py:77-79 | a text without a split point is its own answer for every question |
| AnswerFinderFacts.FindAnswerEmptyText | text_understanding.py:77-79 | the empty text yields the empty answer, not the fallback message |
| AnswerExample.ExampleSplit | text_understanding.py:77 | "The cat sat on the mat. It was sunny." splits into its two sentences |
| AnswerExample.ExampleKeywords | text_understanding.py:78 | the keywords of "Where did the cat sit?" are "where", "did", "the", "cat", "sit?" |
| AnswerExample.ScoreFirst | text_understanding.py:79 | the first sentence scores 2 ("the" and "cat") |
| AnswerExample.ScoreSecond | text_understanding.py:79 | the second sentence scores 0 |
| AnswerExample.AnswerOfTwo | text_understanding.py:79 | with two pieces the first is returned unless the second scores strictly higher |
| AnswerExample.ExampleAnswer | text_understanding.py:76-80 | the answer to "Where did the cat sit?" is "The cat sat on the mat." |
| Removal.RemoveAll | text_understanding.py:107 | the result is never longer than the sentence; `RemoveAllDeletesEveryOccurrence` says exactly what it deletes |
| Removal.SplitOnJoin | text_understanding.py:107 | the chunks between occurrences, glued with the pattern, give back the sentence |
| Removal.SplitOnLeftmost | text_understanding.py:107 | occurrences are taken leftmost first: no occurrence starts inside a chunk |
| Removal.RemoveAllConcat | text_understanding.py:107 | `replace(pat, "")` is the chunks glued with nothing |
| Removal.RemoveAllLength | text_understanding.py:107 | each deleted occurrence removes exactly `len(pat)` characters |
| Removal.RemoveAllAbsent | text_understanding.py:107 | a sentence not containing the pattern is unchanged |
| Removal.RemoveAllDeletesEveryOccurrence | text_understanding.py:107 | the four facts above together: the sentence is its chunks glued with the pattern, chunks hold no leftmost occurrence, the result is the chunks glued with nothing, and the length drops by `len(pat)` per occurrence |
| Removal.RemovalCanRejoin | text_understanding.py:107 | deletion can bring the pattern back together: `"aabb".replace("ab", "")` is `"ab"`, so a question may still contain its answer |
| Quiz.Nouns | text_understanding.py:103 | there are no more candidates than tokens and every candidate is longer than three characters |
| Quiz.Pick | text_understanding.py:106 | the drawn index is a valid index among the candidates |
| Quiz.ItemFor | text_understanding.py:100-109 | a sentence gives no pair exactly when its noun list is empty; otherwise the answer is one of its nouns, longer than three characters, and the question is the sentence with every occurrence of the answer deleted |
| Quiz.QuizSpec | text_understanding.py:96-114 | at most one pair per sentence, at most `num_questions` pairs for a positive limit, and at most one otherwise |
| Quiz.AllItemsPrefix | text_understanding.py:99-109 | the pairs of fewer sentences are a prefix of the pairs of more |
| Quiz.AllItemsStep | text_understanding.py:100-109 | one more sentence appends its pair, if it has one, and nothing else |
| Quiz.GenerateQuizQuestions | text_understanding.py:96-114 | the loop's result equals the specification `QuizSpec` of the tokenized sentences: the first `num_questions` pairs, or the first sentence's pair alone for a non-positive limit |
| Quiz.QuizSpecAtStop | text_understanding.py:111-112 | breaking right after the sentence that reaches the limit yields the specified pairs |
| Quiz.QuizSpecAtEnd | text_understanding.py:99-114 | running out of sentences below the limit yields the specified pairs |
| QuizFacts.NounsSpec | text_understanding.py:103 | a word is in the noun list exactly when some token carries it with a tag starting with `NN` and it is longer than three characters |
| QuizFacts.NounsEmpty | text_understanding.py:103-105 | the noun list is empty exactly when no token is a candidate |
| QuizFacts.ItemForSpec | text_understanding.py:103-109 | a sentence contributes a pair exactly when it has a candidate, and the pair's answer is a candidate and its question is the sentence with the answer deleted |
| QuizFacts.ItemQuestionShape | text_understanding.py:107 | a pair's question is the sentence cut at every leftmost occurrence of the answer and glued back without it |
| QuizFacts.AllItemsOrigin | text_understanding.py:99-109 | pair `k` of all sentences comes from sentence `Sources[k]`; the sources rise strictly; a sentence is a source exactly when it has a candidate |
| QuizFacts.QuizIsPrefix | text_understanding.py:111-114 | the returned pairs are a prefix of all pairs |
| QuizFacts.QuizOrigin | text_understanding.py:96-114 | each returned pair is a pair of its own sentence, and the pairs follow sentence order with at most one per sentence |
| QuizFacts.QuizNonPositiveLimit | text_understanding.py:111-112 | with a limit of zero or less the first sentence's pair is still returned exactly when it has a candidate |
| QuizFacts.QuizShortInput | text_understanding.py:99-114 | when there are no more pairs than the limit all of them are returned, never an error |
| QuizFacts.QuizStopsAtLimit | text_understanding.py:111-112 | the result is the pairs of the sentences up to the first one that brings the count to the limit |
| QuizFacts.NoPairsNoCandidates | text_understanding.py:103-109 | the sentences give no pair at all exactly when none of them has a noun candidate |
| QuizFacts.QuizEmpty | text_understanding.py:105-114 | with a positive limit the quiz is empty exactly when no sentence has a noun candidate |
| Listing.NatToString | text_understanding.py:188 | the numeral is non-empty, all digits, and has no leading zero |
| Listing.ParseNatToString | text_understanding.py:188 | reading the numeral of `i` back gives `i` |
| Listing.NatToStringInjective | text_understanding.py:188 | different numbers have different numerals |
| Listing.Entry | text_understanding.py:188 | an entry starts with `Q`, the numeral of its number and a colon; `EntryNumberUnique` proves different numbers give different entries |
| Listing.QuizListing | text_understanding.py:188 | the quiz text is empty exactly when there are no pairs; `ListingAppend` and `ListingStartsWithFirst` give its layout |
| Listing.JoinWithSnoc | text_understanding.py:188 | `sep.join` of one more item appends the separator and the item |
| Listing.ListingAppend | text_understanding.py:188 | one more pair appends a blank line (except for the first) and its entry numbered one past the earlier pairs |
| Listing.ListingStartsWithFirst | text_understanding.py:188 | the text starts with the first pair as `Q1: <question>`, newline, `A: <answer>` |
| Listing.EntryNumberUnique | text_understanding.py:188 | entries with different numbers are different strings |
| Loader.JoinPages | text_understanding.py:66-68 | pages without text give the empty text; `JoinPagesSomes` proves it is the concatenation of the texts the pages have |
| Loader.LoadText | text_understanding.py:117-124 | loading can fail only for an uploaded PDF or plain-text file, never for pasted text or another file type; `LoadSources`, `LoadFails` and `LoadPrecedence` give every case |
| Loader.JoinPagesAppend | text_understanding.py:68 | the text of two runs of pages is the concatenation of their texts |
| Loader.JoinPagesSomes | text_understanding.py:68 | the PDF text is the concatenation, in page order, of the text of the pages that have some |
| Loader.LoadPrecedence | text_understanding.py:117-124 | when a file is uploaded the text box has no influence on the result |
| Loader.LoadSources | text_understanding.py:117-124 | without an upload the text box is used; a PDF gives its pages' text, a plain-text file its decoded bytes, any other type no text |
| Loader.LoadFails | text_understanding.py:117-124 | loading fails exactly when the upload's PDF reader or UTF-8 decoder fails |
| Loader.Preview | text_understanding.py:128 | the preview is at most 803 characters long and starts with the first 800 characters of the text, or with all of a shorter text |
| Loader.ShownPreview | text_understanding.py:126-128 | a preview appears exactly when there is text, and it is at most 803 characters long |
| Loader.PreviewShape | text_understanding.py:128 | a text of at most 800 characters is shown whole; a longer one as its first 800 characters followed by `...` |

## Left out

- The Streamlit interface, the buttons and the downloads themselves are not part of this model. They are I/O; only the text of the quiz download is modelled.
- Language detection and translation (langdetect, googletrans) are left out. They are network services. The model works on the text as `find_answer` and `generate_quiz_questions` receive it.
- Text-to-speech (`speak_text`, gTTS and pyttsx3) is left out. It is audio I/O.
- The summarizer (`summarize_text`) is left out. It is delegated whole to the sumy library.
- PDF parsing is a parameter. `Loader.LoadText` takes the reader's page texts, or `None` if the reader raises.
- UTF-8 decoding is a parameter of `Loader.LoadText`, because a decoder is library code.
- Sentence tokenization, word tokenization and part-of-speech tagging (NLTK) are parameters of `Quiz.GenerateQuizQuestions`. They are library code.
- `nltk_download.py` and the second variant of the application are not part of this model.
- `Chars.Lower`: it folds ASCII letters only. Python's `str.lower()` also folds non-ASCII letters, and some of those change length. Keyword matching on non-ASCII text is therefore not modelled.
- `Quiz.Pick`: `random.choice` is modelled as an arbitrary choice function, so the model says nothing about uniformity. It covers every possible sequence of draws.
- `Chars.IsSpace`: it lists the characters Python's `str.split()` treats as whitespace. The Unicode database is not consulted.
