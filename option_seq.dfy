/** Collecting the present values of a sequence of optional values, in order. */
module OptionSeq {
  import opened Wrappers

  /** The values of the `Some` entries of `opts`, in order. */
  function Somes<T>(opts: seq<Option<T>>): (r: seq<T>)
    ensures |r| <= |opts|
  {
    if opts == [] then []
    else
      var n := |opts| - 1;
      Somes(opts[..n]) + (if opts[n].Some? then [opts[n].value] else [])
  }

  /** The positions of the `Some` entries of `opts`, in order. */
  function SomeIndices<T>(opts: seq<Option<T>>): seq<nat> {
    if opts == [] then []
    else
      var n := |opts| - 1;
      SomeIndices(opts[..n]) + (if opts[n].Some? then [n] else [])
  }

  /** Collecting a prefix gives a prefix of the collected values. */
  lemma {:induction false} SomesPrefix<T>(opts: seq<Option<T>>, m: nat)
    requires m <= |opts|
    ensures Somes(opts[..m]) <= Somes(opts)
    decreases |opts| - m
  {
    if m < |opts| {
      var n := |opts| - 1;
      SomesPrefix(opts[..n], m);
      assert opts[..n][..m] == opts[..m];
    } else {
      assert opts[..m] == opts;
    }
  }

  /** One more entry adds its value, if it has one. */
  lemma SomesSnoc<T>(opts: seq<Option<T>>, o: Option<T>)
    ensures Somes(opts + [o]) == Somes(opts) + (if o.Some? then [o.value] else [])
  {
    assert (opts + [o])[..|opts|] == opts;
  }

  /** There are as many positions as values, and value `k` sits at position `SomeIndices[k]`. */
  lemma {:induction false} SomeIndicesValues<T>(opts: seq<Option<T>>)
    ensures var idx, vals := SomeIndices(opts), Somes(opts);
      && |idx| == |vals|
      && (forall k :: 0 <= k < |idx| ==> idx[k] < |opts| && opts[idx[k]] == Some(vals[k]))
  {
    if opts != [] {
      var n := |opts| - 1;
      SomeIndicesValues(opts[..n]);
      var idx', vals' := SomeIndices(opts[..n]), Somes(opts[..n]);
      assert forall k :: 0 <= k < |idx'| ==> opts[..n][idx'[k]] == opts[idx'[k]];
    }
  }

  /** The positions rise strictly. */
  lemma {:induction false} SomeIndicesIncreasing<T>(opts: seq<Option<T>>)
    ensures var idx := SomeIndices(opts);
      && (forall k :: 0 <= k < |idx| ==> idx[k] < |opts|)
      && (forall k, l :: 0 <= k < l < |idx| ==> idx[k] < idx[l])
  {
    if opts != [] {
      var n := |opts| - 1;
      SomeIndicesIncreasing(opts[..n]);
      var idx, idx' := SomeIndices(opts), SomeIndices(opts[..n]);
      assert forall k :: 0 <= k < |SomeIndices(opts[..n])| ==> SomeIndices(opts[..n])[k] < n;
      assert forall k :: 0 <= k < |idx'| ==> idx[k] == idx'[k] && idx'[k] < n;
      forall k, l | 0 <= k < l < |idx|
        ensures idx[k] < idx[l]
      {
        if l >= |idx'| {
          assert idx[l] == n;
        }
      }
    }
  }

  /** The positions are exactly those of the `Some` entries. */
  lemma {:induction false} SomeIndicesMembers<T>(opts: seq<Option<T>>)
    ensures forall i :: 0 <= i < |opts| ==> (i in SomeIndices(opts) <==> opts[i].Some?)
  {
    if opts != [] {
      var n := |opts| - 1;
      SomeIndicesMembers(opts[..n]);
      SomeIndicesIncreasing(opts[..n]);
      var idx, idx' := SomeIndices(opts), SomeIndices(opts[..n]);
      assert forall k :: 0 <= k < |SomeIndices(opts[..n])| ==> SomeIndices(opts[..n])[k] < n;
      assert forall k :: 0 <= k < |idx'| ==> idx'[k] < n;
      assert n !in idx';
      forall i | 0 <= i < |opts|
        ensures i in idx <==> opts[i].Some?
      {
        assert i in idx <==> i in idx' || (i == n && opts[n].Some?);
        if i < n {
          assert opts[..n][i] == opts[i];
        }
      }
    }
  }

  /**
   * Value `k` sits at position `SomeIndices[k]`: the positions rise strictly,
   * are exactly the positions of the `Some` entries, and carry the values.
   */
  lemma SomeIndicesSpec<T>(opts: seq<Option<T>>)
    ensures var idx, vals := SomeIndices(opts), Somes(opts);
      && |idx| == |vals|
      && (forall k :: 0 <= k < |idx| ==> idx[k] < |opts| && opts[idx[k]] == Some(vals[k]))
      && (forall k, l :: 0 <= k < l < |idx| ==> idx[k] < idx[l])
      && (forall i :: 0 <= i < |opts| ==> (i in idx <==> opts[i].Some?))
  {
    SomeIndicesValues(opts);
    SomeIndicesIncreasing(opts);
    SomeIndicesMembers(opts);
  }
}
