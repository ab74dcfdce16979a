/**
 * Prefix discovery: keeping, in the engine's order, the records whose name starts
 * with a prefix. Containers and volumes are filtered the same way, by different
 * name fields, so the specification is generic in the record type and its name.
 */
module PrefixMatch {
  import opened Text

  /** The records of `xs` whose name starts with `prefix`, in their original order. */
  function KeepPrefixed<T>(xs: seq<T>, name: T -> string, prefix: string): (r: seq<T>)
    ensures |r| <= |xs|
    ensures forall x :: x in r ==> x in xs && HasPrefix(name(x), prefix)
  {
    if xs == [] then []
    else
      var kept := KeepPrefixed(xs[..|xs| - 1], name, prefix);
      var last := xs[|xs| - 1];
      if HasPrefix(name(last), prefix) then kept + [last] else kept
  }

  /** The positions in `xs` of the records whose name starts with `prefix`, ascending. */
  function MatchingIndices<T>(xs: seq<T>, name: T -> string, prefix: string): seq<nat>
  {
    if xs == [] then []
    else
      var ix := MatchingIndices(xs[..|xs| - 1], name, prefix);
      if HasPrefix(name(xs[|xs| - 1]), prefix) then ix + [|xs| - 1] else ix
  }

  predicate Ascending(ix: seq<nat>)
  {
    forall j, k :: 0 <= j < k < |ix| ==> ix[j] < ix[k]
  }

  lemma {:induction false} IndicesInRange<T>(xs: seq<T>, name: T -> string, prefix: string)
    ensures forall j :: 0 <= j < |MatchingIndices(xs, name, prefix)| ==> MatchingIndices(xs, name, prefix)[j] < |xs|
  {
    if xs != [] {
      IndicesInRange(xs[..|xs| - 1], name, prefix);
    }
  }

  lemma {:induction false} IndicesAscending<T>(xs: seq<T>, name: T -> string, prefix: string)
    ensures Ascending(MatchingIndices(xs, name, prefix))
  {
    if xs != [] {
      var init := xs[..|xs| - 1];
      IndicesAscending(init, name, prefix);
      IndicesInRange(init, name, prefix);
      var ix0, ix := MatchingIndices(init, name, prefix), MatchingIndices(xs, name, prefix);
      assert Ascending(ix0);
      forall j, k | 0 <= j < k < |ix|
        ensures ix[j] < ix[k]
      {
        assert ix[j] == ix0[j];
        assert ix0[j] < |init|;
        if k == |ix0| {
          assert ix[k] == |init|;
        } else {
          assert ix[k] == ix0[k];
          assert ix0[j] < ix0[k];
        }
      }
    }
  }

  lemma {:induction false} IndicesExact<T>(xs: seq<T>, name: T -> string, prefix: string)
    ensures var ix := MatchingIndices(xs, name, prefix);
      forall i :: 0 <= i < |xs| ==> (i in ix <==> HasPrefix(name(xs[i]), prefix))
  {
    if xs != [] {
      var init := xs[..|xs| - 1];
      IndicesExact(init, name, prefix);
      IndicesInRange(init, name, prefix);
      var ix0 := MatchingIndices(init, name, prefix);
      assert |xs| - 1 !in ix0;
      forall i | 0 <= i < |init|
        ensures xs[i] == init[i]
      {
      }
    }
  }

  lemma {:induction false} KeptAtIndices<T>(xs: seq<T>, name: T -> string, prefix: string)
    ensures var r, ix := KeepPrefixed(xs, name, prefix), MatchingIndices(xs, name, prefix);
      |ix| == |r| && forall j :: 0 <= j < |ix| ==> ix[j] < |xs| && r[j] == xs[ix[j]]
  {
    IndicesInRange(xs, name, prefix);
    if xs != [] {
      var init := xs[..|xs| - 1];
      KeptAtIndices(init, name, prefix);
      IndicesInRange(init, name, prefix);
    }
  }

  /**
   * KeepPrefixed selects exactly the matching positions of `xs`, each once and in
   * increasing order: the result is the subsequence of `xs` at MatchingIndices, and
   * a position is among those indices if and only if its record's name starts
   * with the prefix.
   */
  lemma {:induction false} KeepPrefixedSelects<T>(xs: seq<T>, name: T -> string, prefix: string)
    ensures var r, ix := KeepPrefixed(xs, name, prefix), MatchingIndices(xs, name, prefix);
      && |ix| == |r|
      && (forall j :: 0 <= j < |ix| ==> ix[j] < |xs| && r[j] == xs[ix[j]])
      && Ascending(ix)
      && (forall i :: 0 <= i < |xs| ==> (i in ix <==> HasPrefix(name(xs[i]), prefix)))
  {
    KeptAtIndices(xs, name, prefix);
    IndicesAscending(xs, name, prefix);
    IndicesExact(xs, name, prefix);
  }

  /** An empty prefix matches every name, so nothing is dropped. */
  lemma {:induction false} EmptyPrefixKeepsAll<T>(xs: seq<T>, name: T -> string)
    ensures KeepPrefixed(xs, name, "") == xs
  {
    if xs != [] {
      EmptyPrefixKeepsAll(xs[..|xs| - 1], name);
      assert HasPrefix(name(xs[|xs| - 1]), "");
      assert xs[..|xs| - 1] + [xs[|xs| - 1]] == xs;
    }
  }

  /**
   * Filtering by a prefix and then by a longer prefix extending it is the same as
   * filtering by the longer one; with equal prefixes, the filter is idempotent.
   */
  lemma {:induction false} NarrowingPrefix<T>(xs: seq<T>, name: T -> string, short: string, long: string)
    requires HasPrefix(long, short)
    ensures KeepPrefixed(KeepPrefixed(xs, name, short), name, long) == KeepPrefixed(xs, name, long)
  {
    if xs != [] {
      var init, last := xs[..|xs| - 1], xs[|xs| - 1];
      var kept := KeepPrefixed(init, name, short);
      NarrowingPrefix(init, name, short, long);
      if HasPrefix(name(last), long) {
        PrefixTransitive(name(last), long, short);
      }
      if HasPrefix(name(last), short) {
        assert (kept + [last])[..|kept + [last]| - 1] == kept;
      }
    }
  }

  /** Exactly one position of `xs` holds a record whose name starts with `prefix`. */
  ghost predicate ExactlyOneMatch<T>(xs: seq<T>, name: T -> string, prefix: string)
  {
    exists i :: 0 <= i < |xs| && HasPrefix(name(xs[i]), prefix)
      && forall j :: 0 <= j < |xs| && HasPrefix(name(xs[j]), prefix) ==> j == i
  }

  /**
   * The filter keeps a single record exactly when a single position matches, and
   * that record is the one at the matching position.
   */
  lemma {:induction false} SingleKeptIffExactlyOne<T>(xs: seq<T>, name: T -> string, prefix: string)
    ensures |KeepPrefixed(xs, name, prefix)| == 1 <==> ExactlyOneMatch(xs, name, prefix)
    ensures |KeepPrefixed(xs, name, prefix)| == 1 ==>
      forall i :: 0 <= i < |xs| && HasPrefix(name(xs[i]), prefix) ==> KeepPrefixed(xs, name, prefix)[0] == xs[i]
  {
    var r, ix := KeepPrefixed(xs, name, prefix), MatchingIndices(xs, name, prefix);
    KeepPrefixedSelects(xs, name, prefix);
    if |r| == 1 {
      var i := ix[0];
      assert i in ix;
      forall j | 0 <= j < |xs| && HasPrefix(name(xs[j]), prefix)
        ensures j == i
      {
        assert j in ix;
      }
      assert HasPrefix(name(xs[i]), prefix);
    }
    if ExactlyOneMatch(xs, name, prefix) {
      var i :| 0 <= i < |xs| && HasPrefix(name(xs[i]), prefix)
        && forall j :: 0 <= j < |xs| && HasPrefix(name(xs[j]), prefix) ==> j == i;
      assert i in ix;
      forall k | 0 <= k < |ix|
        ensures ix[k] == i
      {
        assert ix[k] in ix;
      }
      assert ix[0] == i && ix[|ix| - 1] == i;
    }
  }
}
