/**
 * The sentence split of `find_answer`: `re.split(r'(?<=[.!?]) +', text)`.
 * A match is a maximal run of ASCII spaces whose first space follows `.`, `!`
 * or `?`; the punctuation stays with the piece on its left. The model returns
 * the pieces together with the space runs the split consumed.
 */
module SentenceSplit {
  import opened Chars

  datatype Split = Split(pieces: seq<string>, seps: seq<string>)

  /** Length of the run of `' '` at the front of `s`. */
  function SpaceRun(s: string): (n: nat)
    ensures n <= |s|
    ensures forall i :: 0 <= i < n ==> s[i] == ' '
    ensures n < |s| ==> s[n] != ' '
  {
    if |s| > 0 && s[0] == ' ' then 1 + SpaceRun(s[1..]) else 0
  }

  /**
   * Splits `s` left to right; `afterTerminal` tells whether the character just
   * before `s` was sentence-terminal, which is what the lookbehind inspects.
   * The first piece returned is the rest of the piece already in progress.
   */
  function SplitFrom(s: string, afterTerminal: bool): (r: Split)
    ensures |r.pieces| == |r.seps| + 1
    decreases |s|
  {
    if s == [] then
      Split([""], [])
    else if afterTerminal && s[0] == ' ' then
      var n := SpaceRun(s);
      var rest := SplitFrom(s[n..], false);
      Split([""] + rest.pieces, [s[..n]] + rest.seps)
    else
      var rest := SplitFrom(s[1..], IsTerminal(s[0]));
      Split([[s[0]] + rest.pieces[0]] + rest.pieces[1..], rest.seps)
  }

  /** `re.split(r'(?<=[.!?]) +', text)`, with the consumed separators kept. */
  function SplitSentences(text: string): (r: Split)
    ensures |r.pieces| >= 1 && |r.seps| == |r.pieces| - 1
  {
    SplitFrom(text, false)
  }

  /** Interleaves pieces and separators: the inverse of the split. */
  function Join(pieces: seq<string>, seps: seq<string>): string
    requires |pieces| == |seps| + 1
    decreases |seps|
  {
    if |seps| == 0 then pieces[0] else pieces[0] + seps[0] + Join(pieces[1..], seps[1..])
  }

  predicate IsSpaceRun(x: string) {
    |x| > 0 && forall i :: 0 <= i < |x| ==> x[i] == ' '
  }

  predicate EndsTerminal(p: string) {
    |p| > 0 && IsTerminal(p[|p| - 1])
  }

  predicate StartsWithSpace(p: string) {
    |p| > 0 && p[0] == ' '
  }

  /** No position inside `p` where the pattern could start a match. */
  predicate NoSplitPoint(p: string) {
    forall j :: 0 < j < |p| ==> !(IsTerminal(p[j - 1]) && p[j] == ' ')
  }

  /**
   * The shape of a split of a string whose preceding character was terminal
   * exactly when `afterTerminal`: separators are maximal space runs right after
   * terminal punctuation, and no piece holds a further split point.
   */
  predicate WellFormedFrom(r: Split, afterTerminal: bool) {
    && |r.pieces| == |r.seps| + 1
    && (forall k :: 0 <= k < |r.seps| ==> IsSpaceRun(r.seps[k]))
    && (forall k :: 0 <= k < |r.seps| ==>
          EndsTerminal(r.pieces[k]) || (k == 0 && afterTerminal && r.pieces[0] == ""))
    && (forall k :: 0 < k < |r.pieces| ==> !StartsWithSpace(r.pieces[k]))
    && (afterTerminal ==> !StartsWithSpace(r.pieces[0]))
    && (forall k :: 0 <= k < |r.pieces| ==> NoSplitPoint(r.pieces[k]))
  }

  /** The shape of a split of a whole text. */
  predicate WellFormed(r: Split) {
    WellFormedFrom(r, false)
  }

  lemma JoinConsFirst(x: string, pieces: seq<string>, seps: seq<string>)
    requires |pieces| == |seps| + 1
    ensures Join([x + pieces[0]] + pieces[1..], seps) == x + Join(pieces, seps)
  {
    var p' := [x + pieces[0]] + pieces[1..];
    if |seps| > 0 {
      assert p'[1..] == pieces[1..];
    }
  }

  /** The first piece followed by the first separator starts the joined string. */
  lemma JoinFirst(pieces: seq<string>, seps: seq<string>)
    requires |pieces| == |seps| + 1 && |seps| > 0
    ensures Join(pieces, seps) == pieces[0] + (seps[0] + Join(pieces[1..], seps[1..]))
  {
  }

  /** The first piece is a prefix of the joined string. */
  lemma JoinPrefix(pieces: seq<string>, seps: seq<string>)
    requires |pieces| == |seps| + 1
    ensures pieces[0] <= Join(pieces, seps)
  {
    if |seps| > 0 {
      JoinFirst(pieces, seps);
    }
  }

  /** Splitting from any state is lossless: joining the pieces with the consumed runs gives `s` back. */
  lemma {:induction false} SplitFromJoin(s: string, t: bool)
    ensures Join(SplitFrom(s, t).pieces, SplitFrom(s, t).seps) == s
    decreases |s|
  {
    if s == [] {
    } else if t && s[0] == ' ' {
      var n := SpaceRun(s);
      SplitFromJoin(s[n..], false);
      assert s == s[..n] + s[n..];
    } else {
      var rest := SplitFrom(s[1..], IsTerminal(s[0]));
      SplitFromJoin(s[1..], IsTerminal(s[0]));
      JoinConsFirst([s[0]], rest.pieces, rest.seps);
      assert s == [s[0]] + s[1..];
    }
  }

  /** The first piece of a split is a prefix of the string split. */
  lemma {:induction false} FirstPieceIsPrefix(s: string, t: bool)
    ensures SplitFrom(s, t).pieces[0] <= s
    decreases |s|
  {
    if s != [] && !(t && s[0] == ' ') {
      FirstPieceIsPrefix(s[1..], IsTerminal(s[0]));
    }
  }

  /** Splitting from any state yields a well-formed split. */
  lemma {:induction false} SplitFromWellFormed(s: string, t: bool)
    ensures WellFormedFrom(SplitFrom(s, t), t)
    decreases |s|
  {
    if s == [] {
    } else if t && s[0] == ' ' {
      var n := SpaceRun(s);
      SplitFromWellFormed(s[n..], false);
      if n < |s| {
        FirstPieceIsPrefix(s[n..], false);
      }
      ConsRunWellFormed(s[..n], SplitFrom(s[n..], false));
    } else {
      SplitFromWellFormed(s[1..], IsTerminal(s[0]));
      SplitCharCase(s, t);
    }
  }

  /** An empty piece and a space run put in front of a split that does not start with a space. */
  lemma ConsRunWellFormed(run: string, rest: Split)
    requires IsSpaceRun(run)
    requires WellFormedFrom(rest, false)
    requires !StartsWithSpace(rest.pieces[0])
    ensures WellFormedFrom(Split([""] + rest.pieces, [run] + rest.seps), true)
  {
    var r := Split([""] + rest.pieces, [run] + rest.seps);
    assert forall k :: 0 < k < |r.pieces| ==> r.pieces[k] == rest.pieces[k - 1];
    assert forall k :: 0 < k < |r.seps| ==> r.seps[k] == rest.seps[k - 1];
  }

  /** A well-formed split has no split point right after its first character. */
  lemma NoSplitPointTail(p: string)
    requires NoSplitPoint(p) && |p| > 0
    ensures NoSplitPoint(p[1..])
    ensures |p| > 1 && IsTerminal(p[0]) ==> p[1] != ' '
  {
    forall j | 0 < j < |p[1..]|
      ensures !(IsTerminal(p[1..][j - 1]) && p[1..][j] == ' ')
    {
      assert p[1..][j - 1] == p[j] && p[1..][j] == p[j + 1];
    }
    if |p| > 1 {
      assert !(IsTerminal(p[0]) && p[1] == ' ');
    }
  }

  /** No split point appears when a character goes in front of a piece, unless it is terminal and the piece starts with a space. */
  lemma ConsCharNoSplitPoint(c: char, p: string)
    requires NoSplitPoint(p)
    requires IsTerminal(c) ==> !StartsWithSpace(p)
    ensures NoSplitPoint([c] + p)
  {
    var p0 := [c] + p;
    forall j | 0 < j < |p0|
      ensures !(IsTerminal(p0[j - 1]) && p0[j] == ' ')
    {
      assert p0[j] == p[j - 1];
      if j > 1 {
        assert p0[j - 1] == p[j - 2];
      }
    }
  }

  /** A piece that ends in a terminal keeps ending in one when a character goes in front. */
  lemma ConsCharEndsTerminal(c: char, p: string)
    requires EndsTerminal(p) || (IsTerminal(c) && p == "")
    ensures EndsTerminal([c] + p)
  {
    var p0 := [c] + p;
    assert p0[|p0| - 1] == if p == "" then c else p[|p| - 1];
  }

  /** A character put in front of the first piece of a split. */
  lemma SplitCharCase(s: string, t: bool)
    requires |s| > 0 && !(t && s[0] == ' ')
    requires WellFormedFrom(SplitFrom(s[1..], IsTerminal(s[0])), IsTerminal(s[0]))
    ensures WellFormedFrom(SplitFrom(s, t), t)
  {
    var c := s[0];
    var rest := SplitFrom(s[1..], IsTerminal(c));
    assert SplitFrom(s, t) == Split([[c] + rest.pieces[0]] + rest.pieces[1..], rest.seps);
    ConsCharWellFormed(c, rest, t);
  }

  /** The split with a character put in front of its first piece. */
  lemma ConsCharWellFormed(c: char, rest: Split, t: bool)
    requires WellFormedFrom(rest, IsTerminal(c))
    requires !(t && c == ' ')
    ensures WellFormedFrom(Split([[c] + rest.pieces[0]] + rest.pieces[1..], rest.seps), t)
  {
    var p0 := [c] + rest.pieces[0];
    var r := Split([p0] + rest.pieces[1..], rest.seps);
    assert forall k :: 0 < k < |r.pieces| ==> r.pieces[k] == rest.pieces[k];
    if |rest.seps| > 0 {
      ConsCharEndsTerminal(c, rest.pieces[0]);
    }
    ConsCharNoSplitPoint(c, rest.pieces[0]);
  }

  /** Dropping the first piece and separator of a well-formed split leaves a well-formed split. */
  lemma WellFormedTail(r: Split, t: bool)
    requires WellFormedFrom(r, t) && |r.seps| > 0
    ensures WellFormedFrom(Split(r.pieces[1..], r.seps[1..]), false)
  {
    var rest := Split(r.pieces[1..], r.seps[1..]);
    assert forall k :: 0 <= k < |rest.seps| ==> rest.seps[k] == r.seps[k + 1];
    assert forall k :: 0 <= k < |rest.pieces| ==> rest.pieces[k] == r.pieces[k + 1];
  }

  /** A well-formed split of a string not preceded by a terminal joins to a string not starting with a space. */
  lemma JoinNoLeadingSpace(r: Split)
    requires WellFormedFrom(r, false) && !StartsWithSpace(r.pieces[0])
    ensures !StartsWithSpace(Join(r.pieces, r.seps))
  {
    JoinPrefix(r.pieces, r.seps);
  }

  /** Dropping the first character of a non-empty first piece keeps the split well-formed. */
  lemma DropCharWellFormed(r: Split, t: bool)
    requires WellFormedFrom(r, t) && |r.pieces[0]| > 0
    ensures WellFormedFrom(Split([r.pieces[0][1..]] + r.pieces[1..], r.seps), IsTerminal(r.pieces[0][0]))
  {
    var p0 := r.pieces[0];
    var rest := Split([p0[1..]] + r.pieces[1..], r.seps);
    assert forall k :: 0 < k < |rest.pieces| ==> rest.pieces[k] == r.pieces[k];
    NoSplitPointTail(p0);
    if |r.seps| > 0 && |p0| > 1 {
      assert p0[1..][|p0[1..]| - 1] == p0[|p0| - 1];
    }
  }

  /** A well-formed decomposition of a string starting with a space, after a terminal, begins with an empty piece and the leading run. */
  lemma UniqueRunStep(s: string, r: Split)
    requires |s| > 0 && s[0] == ' '
    requires WellFormedFrom(r, true) && Join(r.pieces, r.seps) == s
    ensures |r.seps| > 0 && r.pieces[0] == ""
    ensures SpaceRun(s) == |r.seps[0]| && r.seps[0] == s[..SpaceRun(s)]
    ensures WellFormedFrom(Split(r.pieces[1..], r.seps[1..]), false)
    ensures Join(r.pieces[1..], r.seps[1..]) == s[SpaceRun(s)..]
  {
    JoinPrefix(r.pieces, r.seps);
    assert |r.seps| > 0;
    JoinFirst(r.pieces, r.seps);
    var tail := Join(r.pieces[1..], r.seps[1..]);
    assert s == r.seps[0] + tail;
    WellFormedTail(r, true);
    assert !StartsWithSpace(r.pieces[1]);
    JoinNoLeadingSpace(Split(r.pieces[1..], r.seps[1..]));
    SpaceRunOf(r.seps[0], tail);
  }

  /** A well-formed decomposition of a string not starting a run has a first piece holding the first character. */
  lemma UniqueCharStep(s: string, t: bool, r: Split)
    requires |s| > 0 && !(t && s[0] == ' ')
    requires WellFormedFrom(r, t) && Join(r.pieces, r.seps) == s
    ensures |r.pieces[0]| > 0 && r.pieces[0][0] == s[0]
    ensures Join([r.pieces[0][1..]] + r.pieces[1..], r.seps) == s[1..]
  {
    JoinPrefix(r.pieces, r.seps);
    if |r.pieces[0]| == 0 {
      JoinFirst(r.pieces, r.seps);
    }
    var p0 := r.pieces[0];
    assert p0[0] == s[0];
    assert [s[0]] + p0[1..] == p0;
    JoinConsFirst([s[0]], [p0[1..]] + r.pieces[1..], r.seps);
    assert [[s[0]] + p0[1..]] + r.pieces[1..] == r.pieces;
  }

  /** Any well-formed decomposition of `s` is the one the split computes. */
  lemma {:induction false} SplitFromUnique(s: string, t: bool, r: Split)
    requires WellFormedFrom(r, t)
    requires Join(r.pieces, r.seps) == s
    ensures r == SplitFrom(s, t)
    decreases |s|, 1
  {
    if s == [] {
    } else if t && s[0] == ' ' {
      UniqueRun(s, r);
    } else {
      UniqueChar(s, t, r);
    }
  }

  /** The case of `SplitFromUnique` where a separator starts `s`. */
  lemma {:induction false} UniqueRun(s: string, r: Split)
    requires |s| > 0 && s[0] == ' '
    requires WellFormedFrom(r, true) && Join(r.pieces, r.seps) == s
    ensures r == SplitFrom(s, true)
    decreases |s|, 0
  {
    UniqueRunStep(s, r);
    var n := SpaceRun(s);
    SplitFromUnique(s[n..], false, Split(r.pieces[1..], r.seps[1..]));
    assert r.pieces == [""] + r.pieces[1..] && r.seps == [s[..n]] + r.seps[1..];
  }

  /** The case of `SplitFromUnique` where the first character of `s` belongs to the first piece. */
  lemma {:induction false} UniqueChar(s: string, t: bool, r: Split)
    requires |s| > 0 && !(t && s[0] == ' ')
    requires WellFormedFrom(r, t) && Join(r.pieces, r.seps) == s
    ensures r == SplitFrom(s, t)
    decreases |s|, 0
  {
    UniqueCharStep(s, t, r);
    DropCharWellFormed(r, t);
    var p0 := r.pieces[0];
    SplitFromUnique(s[1..], IsTerminal(s[0]), Split([p0[1..]] + r.pieces[1..], r.seps));
    assert [s[0]] + p0[1..] == p0;
    assert r.pieces == [[s[0]] + p0[1..]] + r.pieces[1..];
  }

  lemma SpaceRunOf(run: string, tail: string)
    requires IsSpaceRun(run)
    requires !StartsWithSpace(tail)
    ensures SpaceRun(run + tail) == |run|
    decreases |run|
  {
    if |run| > 1 {
      assert (run + tail)[1..] == run[1..] + tail;
      SpaceRunOf(run[1..], tail);
    } else {
      assert (run + tail)[1..] == tail;
    }
  }
}


module SentenceSplitFacts {
  import opened Chars
  import opened SentenceSplit

  /** Joining the pieces with the consumed space runs reproduces the text exactly. */
  lemma SplitLossless(text: string)
    ensures Join(SplitSentences(text).pieces, SplitSentences(text).seps) == text
  {
    SplitFromJoin(text, false);
  }

  /**
   * The computed split is the unique well-formed decomposition of the text:
   * a decomposition is the split exactly when it joins back to the text, its
   * separators are runs of `' '`, every piece but the last ends in `.`, `!` or
   * `?`, no piece but the first begins with a space, and no piece holds a
   * terminal character followed by a space.
   */
  lemma SplitCharacterized(text: string, r: Split)
    ensures r == SplitSentences(text) <==> (WellFormed(r) && Join(r.pieces, r.seps) == text)
  {
    SplitFromJoin(text, false);
    SplitFromWellFormed(text, false);
    if WellFormed(r) && Join(r.pieces, r.seps) == text {
      SplitFromUnique(text, false, r);
    }
  }

  /** The shape of every split, spelled out. */
  lemma SplitShape(text: string)
    ensures var r := SplitSentences(text);
      && |r.pieces| >= 1
      && |r.seps| == |r.pieces| - 1
      && (forall k :: 0 <= k < |r.seps| ==> |r.seps[k]| > 0 && forall j :: 0 <= j < |r.seps[k]| ==> r.seps[k][j] == ' ')
      && (forall k :: 0 <= k < |r.pieces| - 1 ==> |r.pieces[k]| > 0 && IsTerminal(r.pieces[k][|r.pieces[k]| - 1]))
      && (forall k :: 0 < k < |r.pieces| ==> r.pieces[k] == [] || r.pieces[k][0] != ' ')
  {
    SplitFromWellFormed(text, false);
  }

  /** The empty text splits into one empty piece. */
  lemma SplitEmpty()
    ensures SplitSentences("").pieces == [""]
  {
  }

  /**
   * A text with no space right after a terminal character is not split at
   * all; in particular a newline or a tab after `.` never splits.
   */
  lemma {:induction false} NoSplitPointOnePiece(text: string)
    requires NoSplitPoint(text)
    ensures SplitSentences(text) == Split([text], [])
  {
    SplitFromUnique(text, false, Split([text], []));
  }

  /** A concrete instance: only the space after `.` splits, the newline after `!` does not. */
  lemma SplitExample()
    ensures SplitSentences("Hi!\nMe. You").pieces == ["Hi!\nMe.", "You"]
  {
    var p0, p1 := "Hi!\nMe.", "You";
    var r := Split([p0, p1], [" "]);
    assert Join(r.pieces, r.seps) == p0 + " " + p1;
    assert p0 + " " + p1 == "Hi!\nMe. You";
    assert NoSplitPoint(p0) by {
      assert p0[1] != ' ' && p0[2] != ' ' && p0[3] != ' ' && p0[4] != ' ' && p0[5] != ' ' && p0[6] != ' ';
    }
    assert NoSplitPoint(p1) by {
      assert p1[1] != ' ' && p1[2] != ' ';
    }
    assert EndsTerminal(p0) && IsSpaceRun(" ") && !StartsWithSpace(p1);
    assert WellFormed(r);
    SplitCharacterized("Hi!\nMe. You", r);
  }

  /** Every piece is a contiguous substring of the joined text. */
  lemma {:induction false} JoinedPieceOccurs(pieces: seq<string>, seps: seq<string>, k: nat)
    requires |pieces| == |seps| + 1 && k < |pieces|
    ensures exists i :: OccursAt(pieces[k], Join(pieces, seps), i)
    decreases |seps|
  {
    var whole := Join(pieces, seps);
    if k == 0 {
      if |seps| > 0 {
        assert whole == pieces[0] + (seps[0] + Join(pieces[1..], seps[1..]));
      }
      assert OccursAt(pieces[0], whole, 0);
    } else {
      var tail := Join(pieces[1..], seps[1..]);
      JoinedPieceOccurs(pieces[1..], seps[1..], k - 1);
      var i :| OccursAt(pieces[1..][k - 1], tail, i);
      var off := |pieces[0] + seps[0]|;
      assert whole == (pieces[0] + seps[0]) + tail;
      assert whole[off + i..off + i + |pieces[k]|] == tail[i..i + |pieces[k]|];
      assert OccursAt(pieces[k], whole, off + i);
    }
  }

  /** Every piece of the split occurs in the text it came from. */
  lemma PiecesComeFromText(text: string, k: nat)
    requires k < |SplitSentences(text).pieces|
    ensures exists i :: OccursAt(SplitSentences(text).pieces[k], text, i)
  {
    SplitLossless(text);
    JoinedPieceOccurs(SplitSentences(text).pieces, SplitSentences(text).seps, k);
  }
}
