/**
 * The downloadable quiz text:
 * `"\n\n".join([f"Q{i}: {q}\nA: {a}" for i, (q, a) in enumerate(questions, 1)])`.
 */
module Listing {
  import opened Removal
  import opened Quiz

  predicate IsDigit(c: char) {
    '0' <= c <= '9'
  }

  function DigitChar(d: nat): (c: char)
    requires d < 10
    ensures IsDigit(c)
  {
    (48 + d) as char
  }

  function DigitValue(c: char): (d: nat)
    requires IsDigit(c)
    ensures d < 10
  {
    (c as int) - 48
  }

  /** The decimal numeral an f-string writes for `n`: digits only, no leading zero. */
  function NatToString(n: nat): (s: string)
    ensures |s| >= 1
    ensures forall k :: 0 <= k < |s| ==> IsDigit(s[k])
    ensures s[0] == '0' ==> n == 0
    decreases n
  {
    if n < 10 then [DigitChar(n)] else NatToString(n / 10) + [DigitChar(n % 10)]
  }

  /** Reading a numeral back. */
  function ParseNat(s: string): nat
    requires forall k :: 0 <= k < |s| ==> IsDigit(s[k])
  {
    if s == [] then 0 else 10 * ParseNat(s[..|s| - 1]) + DigitValue(s[|s| - 1])
  }

  /** Reading the numeral of `n` gives `n`. */
  lemma {:induction false} ParseNatToString(n: nat)
    ensures ParseNat(NatToString(n)) == n
    decreases n
  {
    var s := NatToString(n);
    if n >= 10 {
      ParseNatToString(n / 10);
      assert s[..|s| - 1] == NatToString(n / 10);
    }
  }

  /** Different numbers have different numerals. */
  lemma NatToStringInjective(i: nat, j: nat)
    requires NatToString(i) == NatToString(j)
    ensures i == j
  {
    ParseNatToString(i);
    ParseNatToString(j);
  }

  /** One entry of the listing: `f"Q{i}: {q}\nA: {a}"`. */
  function Entry(i: nat, item: QuizItem): (e: string)
    ensures var s := NatToString(i);
      && |e| > |s| + 1
      && e[0] == 'Q'
      && e[1..|s| + 1] == s
      && e[|s| + 1] == ':'
  {
    var s := NatToString(i);
    assert "Q" + s + ": " + item.question + "\nA: " + item.answer
      == "Q" + s + (": " + item.question + "\nA: " + item.answer);
    "Q" + s + ": " + item.question + "\nA: " + item.answer
  }

  /** The entries, numbered from 1. */
  function Entries(items: seq<QuizItem>): (es: seq<string>)
    ensures |es| == |items|
    ensures forall k :: 0 <= k < |es| ==> es[k] == Entry(k + 1, items[k])
  {
    seq(|items|, k requires 0 <= k < |items| => Entry(k + 1, items[k]))
  }

  /** The quiz text: the entries separated by blank lines, or nothing for no pairs. */
  function QuizListing(items: seq<QuizItem>): (t: string)
    ensures t == "" <==> items == []
  {
    if items == [] then ""
    else
      var es := Entries(items);
      assert |es[0]| > 0;
      assert |es| > 1 ==> JoinWith(es, "\n\n") == es[0] + "\n\n" + JoinWith(es[1..], "\n\n");
      JoinWith(es, "\n\n")
  }

  /** Gluing one more chunk on the end. */
  lemma {:induction false} JoinWithSnoc(chunks: seq<string>, x: string, sep: string)
    requires |chunks| >= 1
    ensures JoinWith(chunks + [x], sep) == JoinWith(chunks, sep) + sep + x
    decreases |chunks|
  {
    var c' := chunks + [x];
    if |chunks| == 1 {
      assert c'[1..] == [x];
    } else {
      assert c'[1..] == chunks[1..] + [x];
      JoinWithSnoc(chunks[1..], x, sep);
    }
  }

  /**
   * One more pair adds a blank line (unless it is the first) and its entry,
   * numbered one past the pairs before it.
   */
  lemma ListingAppend(items: seq<QuizItem>, item: QuizItem)
    ensures QuizListing(items + [item])
      == (if items == [] then "" else QuizListing(items) + "\n\n") + Entry(|items| + 1, item)
  {
    if items == [] {
      assert Entries([item]) == [Entry(1, item)];
    } else {
      assert Entries(items + [item]) == Entries(items) + [Entry(|items| + 1, item)];
      JoinWithSnoc(Entries(items), Entry(|items| + 1, item), "\n\n");
    }
  }

  /** The text begins with the first pair, numbered 1. */
  lemma ListingStartsWithFirst(items: seq<QuizItem>)
    requires items != []
    ensures "Q1: " + items[0].question + "\nA: " + items[0].answer <= QuizListing(items)
  {
    var es := Entries(items);
    assert NatToString(1) == "1";
    assert es[0] == "Q1: " + items[0].question + "\nA: " + items[0].answer;
    if |es| > 1 {
      assert JoinWith(es, "\n\n") == es[0] + ("\n\n" + JoinWith(es[1..], "\n\n"));
    }
  }

  /** The number of an entry can be read back from it: entries with different numbers differ. */
  lemma EntryNumberUnique(i: nat, j: nat, x: QuizItem, y: QuizItem)
    requires Entry(i, x) == Entry(j, y)
    ensures i == j
  {
    var e, a, b := Entry(i, x), NatToString(i), NatToString(j);
    NatToStringInjective(i, j);
  }
}
