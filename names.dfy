/**
 * Duplicate-dropping append of node-replacement names (appendIfMissingStr and
 * appendIfMissingElement in pkg/controller/noderollout/status/status.go).
 */
module Names {

  /** No name occurs twice. */
  predicate NoDups(s: seq<string>)
  {
    forall i, j :: 0 <= i < j < |s| ==> s[i] != s[j]
  }

  /** `s` with `x` appended unless it already holds it. */
  function WithName(s: seq<string>, x: string): seq<string>
  {
    if x in s then s else s + [x]
  }

  /** Every name of `xs`, in order, appended to `acc` unless already accumulated. */
  function Merged(acc: seq<string>, xs: seq<string>): seq<string>
    decreases |xs|
  {
    if xs == [] then acc else WithName(Merged(acc, xs[..|xs| - 1]), xs[|xs| - 1])
  }

  lemma {:induction false} MergedExtends(acc: seq<string>, xs: seq<string>)
    ensures acc <= Merged(acc, xs)
    decreases |xs|
  {
    if xs != [] {
      MergedExtends(acc, xs[..|xs| - 1]);
    }
  }

  /** The merged list holds exactly the names of both inputs. */
  lemma {:induction false} MergedElements(acc: seq<string>, xs: seq<string>)
    ensures forall x :: x in Merged(acc, xs) <==> x in acc || x in xs
    decreases |xs|
  {
    if xs != [] {
      var init := xs[..|xs| - 1];
      MergedElements(acc, init);
      assert xs == init + [xs[|xs| - 1]];
    }
  }

  /** Merging never introduces a duplicate. */
  lemma {:induction false} MergedNoDups(acc: seq<string>, xs: seq<string>)
    requires NoDups(acc)
    ensures NoDups(Merged(acc, xs))
    decreases |xs|
  {
    if xs != [] {
      MergedNoDups(acc, xs[..|xs| - 1]);
    }
  }

  /** Only names absent from the stored list are appended to it. */
  lemma {:induction false} MergedAppendsOnlyNew(acc: seq<string>, xs: seq<string>)
    ensures forall i :: |acc| <= i < |Merged(acc, xs)| ==> Merged(acc, xs)[i] !in acc
    decreases |xs|
  {
    if xs != [] {
      var init := xs[..|xs| - 1];
      MergedAppendsOnlyNew(acc, init);
      MergedElements(acc, init);
      MergedExtends(acc, init);
    }
  }

  /** Merging names that are all present already changes nothing. */
  lemma {:induction false} MergedAbsorbs(acc: seq<string>, xs: seq<string>)
    requires forall x :: x in xs ==> x in acc
    ensures Merged(acc, xs) == acc
    decreases |xs|
  {
    if xs != [] {
      MergedAbsorbs(acc, xs[..|xs| - 1]);
    }
  }

  /** Re-merging the same list is a no-op. */
  lemma MergedIdempotent(acc: seq<string>, xs: seq<string>)
    ensures Merged(Merged(acc, xs), xs) == Merged(acc, xs)
  {
    MergedElements(acc, xs);
    MergedAbsorbs(Merged(acc, xs), xs);
  }

  /** Fresh, distinct names are appended verbatim and in order. */
  lemma {:induction false} MergedDisjoint(acc: seq<string>, xs: seq<string>)
    requires NoDups(xs)
    requires forall x :: x in xs ==> x !in acc
    ensures Merged(acc, xs) == acc + xs
    decreases |xs|
  {
    if xs != [] {
      var init := xs[..|xs| - 1];
      MergedDisjoint(acc, init);
      assert xs == init + [xs[|xs| - 1]];
    }
  }

  /** appendIfMissingElement: a linear search, then an append when not found. */
  method AppendIfMissingElement(slice: seq<string>, i: string) returns (r: seq<string>)
    ensures i in slice ==> r == slice
    ensures i !in slice ==> r == slice + [i]
  {
    var k := 0;
    while k < |slice|
      invariant 0 <= k <= |slice|
      invariant i !in slice[..k]
    {
      if slice[k] == i {
        return slice;
      }
      k := k + 1;
    }
    assert slice[..k] == slice;
    r := slice + [i];
  }

  /** appendIfMissingStr: folds appendIfMissingElement over `str`. */
  method AppendIfMissingStr(slice: seq<string>, str: seq<string>) returns (merged: seq<string>)
    ensures merged == Merged(slice, str)
    ensures slice <= merged
    ensures forall x :: x in merged <==> x in slice || x in str
  {
    merged := slice;
    var k := 0;
    while k < |str|
      invariant 0 <= k <= |str|
      invariant merged == Merged(slice, str[..k])
    {
      assert str[..k + 1][..k] == str[..k];
      merged := AppendIfMissingElement(merged, str[k]);
      k := k + 1;
    }
    assert str[..k] == str;
    MergedExtends(slice, str);
    MergedElements(slice, str);
  }
}
