/**
 * `str.replace(pat, "")` for a non-empty pattern, and the `str.split(pat)`
 * chunks that describe what it removes.
 */
module Removal {
  import opened Chars

  /** `s.replace(pat, "")`: non-overlapping occurrences, found left to right, are deleted. */
  function RemoveAll(s: string, pat: string): (r: string)
    requires |pat| > 0
    ensures |r| <= |s|
    decreases |s|
  {
    if s == [] then []
    else if pat <= s then RemoveAll(s[|pat|..], pat)
    else [s[0]] + RemoveAll(s[1..], pat)
  }

  /** `s.split(pat)`: the stretches between the non-overlapping occurrences of `pat`. */
  function SplitOn(s: string, pat: string): (chunks: seq<string>)
    requires |pat| > 0
    ensures |chunks| >= 1
    decreases |s|
  {
    if s == [] then [""]
    else if pat <= s then [""] + SplitOn(s[|pat|..], pat)
    else
      var rest := SplitOn(s[1..], pat);
      [[s[0]] + rest[0]] + rest[1..]
  }

  /** `sep.join(chunks)`. */
  function JoinWith(chunks: seq<string>, sep: string): string
    requires |chunks| >= 1
    decreases |chunks|
  {
    if |chunks| == 1 then chunks[0] else chunks[0] + sep + JoinWith(chunks[1..], sep)
  }

  lemma JoinWithConsFirst(x: string, chunks: seq<string>, sep: string)
    requires |chunks| >= 1
    ensures JoinWith([x + chunks[0]] + chunks[1..], sep) == x + JoinWith(chunks, sep)
  {
    var c' := [x + chunks[0]] + chunks[1..];
    if |chunks| > 1 {
      assert c'[1..] == chunks[1..];
    }
  }

  lemma ConcatConsFirst(x: string, chunks: seq<string>)
    requires |chunks| >= 1
    ensures Concat([x + chunks[0]] + chunks[1..]) == x + Concat(chunks)
  {
    var c' := [x + chunks[0]] + chunks[1..];
    assert c'[1..] == chunks[1..];
  }

  /** Gluing the chunks back together with the pattern restores the string. */
  lemma {:induction false} SplitOnJoin(s: string, pat: string)
    requires |pat| > 0
    ensures JoinWith(SplitOn(s, pat), pat) == s
    decreases |s|
  {
    if s == [] {
    } else if pat <= s {
      var tail := s[|pat|..];
      SplitOnJoin(tail, pat);
      JoinWithConsEmpty(SplitOn(tail, pat), pat);
      assert s == pat + tail;
    } else {
      SplitOnJoin(s[1..], pat);
      JoinWithConsFirst([s[0]], SplitOn(s[1..], pat), pat);
      assert s == [s[0]] + s[1..];
    }
  }

  lemma JoinWithConsEmpty(chunks: seq<string>, sep: string)
    requires |chunks| >= 1
    ensures JoinWith([""] + chunks, sep) == sep + JoinWith(chunks, sep)
  {
    assert ([""] + chunks)[1..] == chunks;
  }

  lemma {:induction false} RemoveAllConcat(s: string, pat: string)
    requires |pat| > 0
    ensures RemoveAll(s, pat) == Concat(SplitOn(s, pat))
    decreases |s|
  {
    if s == [] {
    } else if pat <= s {
      RemoveAllConcat(s[|pat|..], pat);
      var rest := SplitOn(s[|pat|..], pat);
      assert ([""] + rest)[1..] == rest;
    } else {
      RemoveAllConcat(s[1..], pat);
      ConcatConsFirst([s[0]], SplitOn(s[1..], pat));
    }
  }

  /** The first chunk is a prefix of the string. */
  lemma FirstChunkIsPrefix(s: string, pat: string)
    requires |pat| > 0
    ensures SplitOn(s, pat)[0] <= s
    ensures |SplitOn(s, pat)| > 1 ==> SplitOn(s, pat)[0] + pat <= s
  {
    var c := SplitOn(s, pat);
    SplitOnJoin(s, pat);
    if |c| > 1 {
      assert s == (c[0] + pat) + JoinWith(c[1..], pat);
    }
  }

  /**
   * The occurrences are found leftmost first: no occurrence of the pattern
   * starts inside a chunk, not even one that reaches into the occurrence
   * that follows it.
   */
  predicate Leftmost(chunks: seq<string>, pat: string) {
    forall k :: 0 <= k < |chunks| ==>
      NoOccurrenceFrom(pat, chunks[k], if k < |chunks| - 1 then pat else "")
  }

  /** No occurrence of `pat` in `c + tail` starts inside `c`. */
  predicate NoOccurrenceFrom(pat: string, c: string, tail: string) {
    forall i :: 0 <= i < |c| ==> !OccursAt(pat, c + tail, i)
  }

  lemma {:induction false} SplitOnLeftmost(s: string, pat: string)
    requires |pat| > 0
    ensures Leftmost(SplitOn(s, pat), pat)
    decreases |s|
  {
    var c := SplitOn(s, pat);
    if s == [] {
    } else if pat <= s {
      SplitOnLeftmost(s[|pat|..], pat);
      var rest := SplitOn(s[|pat|..], pat);
      forall k | 0 <= k < |c|
        ensures NoOccurrenceFrom(pat, c[k], if k < |c| - 1 then pat else "")
      {
        if k > 0 {
          assert c[k] == rest[k - 1];
        }
      }
    } else {
      SplitOnLeftmost(s[1..], pat);
      var rest := SplitOn(s[1..], pat);
      forall k | 0 <= k < |c|
        ensures NoOccurrenceFrom(pat, c[k], if k < |c| - 1 then pat else "")
      {
        if k > 0 {
          assert c[k] == rest[k];
        } else {
          FirstChunkLeftmost(s, pat);
        }
      }
    }
  }

  lemma FirstChunkLeftmost(s: string, pat: string)
    requires |pat| > 0 && s != [] && !(pat <= s)
    requires Leftmost(SplitOn(s[1..], pat), pat)
    ensures var c := SplitOn(s, pat); NoOccurrenceFrom(pat, c[0], if 0 < |c| - 1 then pat else "")
  {
    var c := SplitOn(s, pat);
    var rest := SplitOn(s[1..], pat);
    var tail := if |c| > 1 then pat else "";
    assert |c| == |rest|;
    assert NoOccurrenceFrom(pat, rest[0], tail);
    FirstChunkIsPrefix(s, pat);
    assert c[0] + tail <= s;
    ConsNoOccurrence(s, pat, rest[0], tail);
  }

  /** Putting a character in front keeps a chunk free of occurrences, unless the whole string starts with the pattern. */
  lemma ConsNoOccurrence(s: string, pat: string, c: string, tail: string)
    requires |pat| > 0 && s != [] && !(pat <= s)
    requires [s[0]] + c + tail <= s
    requires NoOccurrenceFrom(pat, c, tail)
    ensures NoOccurrenceFrom(pat, [s[0]] + c, tail)
  {
    var w := [s[0]] + c + tail;
    forall i | 0 <= i < |[s[0]] + c|
      ensures !OccursAt(pat, w, i)
    {
      if i > 0 {
        if OccursAt(pat, w, i) {
          assert w[i..i + |pat|] == (c + tail)[i - 1..i - 1 + |pat|];
          assert OccursAt(pat, c + tail, i - 1);
          assert false;
        }
      }
    }
  }

  /** Each deleted occurrence takes `|pat|` characters away. */
  lemma {:induction false} RemoveAllLength(s: string, pat: string)
    requires |pat| > 0
    ensures |s| == |RemoveAll(s, pat)| + (|SplitOn(s, pat)| - 1) * |pat|
    decreases |s|
  {
    if s == [] {
    } else if pat <= s {
      RemoveAllLength(s[|pat|..], pat);
      var m := |SplitOn(s[|pat|..], pat)| - 1;
      assert (m + 1) * |pat| == m * |pat| + |pat|;
    } else {
      RemoveAllLength(s[1..], pat);
    }
  }

  /** A string where the pattern does not occur is left as it is. */
  lemma {:induction false} RemoveAllAbsent(s: string, pat: string)
    requires |pat| > 0 && !Contains(pat, s)
    ensures RemoveAll(s, pat) == s
    decreases |s|
  {
    if s != [] {
      RemoveAllAbsent(s[1..], pat);
    }
  }

  /**
   * What `sentence.replace(answer, "")` does: the string is its chunks glued
   * with the pattern, the chunks hold no occurrence found left to right, the
   * result is the chunks glued with nothing, and each of the `|chunks| - 1`
   * deleted occurrences removes `|pat|` characters.
   */
  lemma RemoveAllDeletesEveryOccurrence(s: string, pat: string)
    requires |pat| > 0
    ensures var chunks := SplitOn(s, pat);
      && JoinWith(chunks, pat) == s
      && Leftmost(chunks, pat)
      && RemoveAll(s, pat) == Concat(chunks)
      && |s| == |RemoveAll(s, pat)| + (|chunks| - 1) * |pat|
  {
    SplitOnJoin(s, pat);
    SplitOnLeftmost(s, pat);
    RemoveAllConcat(s, pat);
    RemoveAllLength(s, pat);
  }

  /**
   * Deleting can bring two halves of the pattern together, so the result
   * may still contain the pattern: `"aabb".replace("ab", "")` is `"ab"`.
   */
  lemma RemovalCanRejoin(s: string, pat: string)
    requires s == "aabb" && pat == "ab"
    ensures RemoveAll(s, pat) == pat
  {
    assert s[1] != pat[1];
    assert !(pat <= s) && s[1..] == "abb";
    assert pat <= s[1..] && s[1..][2..] == "b";
    assert RemoveAll("b", pat) == "b";
  }
}
