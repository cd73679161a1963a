/** Of a list of paths, those that are no directory of another: the files an image comparison downloads. */
module Diff {
  import opened Ordering

  function Self(s: string): string { s }

  ghost predicate StrictlySorted(s: seq<string>) {
    forall i, j | 0 <= i < j < |s| :: Less(s[i], s[j])
  }

  /** No other path extends it. */
  ghost predicate Maximal(x: string, paths: seq<string>) {
    forall y <- paths :: x <= y ==> x == y
  }

  /** In sorted order, looking at the next path is enough to know whether any path extends this one. */
  lemma NextIsEnough(paths: seq<string>, i: nat)
    requires Sorted(paths, Self) && i + 1 < |paths| && !(paths[i] <= paths[i + 1])
    ensures Maximal(paths[i], paths) && paths[i] !in paths[i + 1..]
  {
    forall y <- paths | paths[i] <= y ensures paths[i] == y {
      var j :| 0 <= j < |paths| && paths[j] == y;
      if j <= i {
        SortedAt(paths, Self, j, i);
        PrefixLeq(paths[i], y);
        LeqAntisymmetric(paths[i], y);
      } else {
        SortedAt(paths, Self, i, i + 1);
        SortedAt(paths, Self, i + 1, j);
        PrefixBetween(paths[i], paths[i + 1], y);
      }
    }
    forall j | i + 1 <= j < |paths| ensures paths[j] != paths[i] {
      SortedAt(paths, Self, i, i + 1);
      SortedAt(paths, Self, i + 1, j);
      if paths[j] == paths[i] { PrefixBetween(paths[i], paths[i + 1], paths[j]); }
    }
  }

  lemma LastIsMaximal(paths: seq<string>)
    requires Sorted(paths, Self) && paths != []
    ensures Maximal(paths[|paths| - 1], paths)
  {
    var n := |paths| - 1;
    forall y <- paths | paths[n] <= y ensures paths[n] == y {
      var j :| 0 <= j < |paths| && paths[j] == y;
      SortedAt(paths, Self, j, n);
      PrefixLeq(paths[n], y);
      LeqAntisymmetric(paths[n], y);
    }
  }

  /** What the loop has established before it looks at path `i`. */
  ghost predicate Filtered(filtered: seq<string>, sorted: seq<string>, i: nat)
    requires i < |sorted|
  {
    && StrictlySorted(filtered)
    && (forall x <- filtered :: x in sorted[..i] && x !in sorted[i..] && Maximal(x, sorted))
    && (forall x <- sorted[..i] :: Maximal(x, sorted) ==> x in filtered || x == sorted[i])
  }

  lemma SkipKeeps(filtered: seq<string>, sorted: seq<string>, i: nat)
    requires i + 1 < |sorted| && Filtered(filtered, sorted, i) && sorted[i] <= sorted[i + 1]
    ensures Filtered(filtered, sorted, i + 1)
  {
    hide StrictlySorted;
    assert sorted[..i + 1] == sorted[..i] + [sorted[i]] && sorted[i..] == [sorted[i]] + sorted[i + 1..];
    assert sorted[i + 1] in sorted;
  }

  lemma KeepKeeps(filtered: seq<string>, sorted: seq<string>, i: nat)
    requires Sorted(sorted, Self) && i + 1 < |sorted| && Filtered(filtered, sorted, i)
    requires !(sorted[i] <= sorted[i + 1])
    ensures Filtered(filtered + [sorted[i]], sorted, i + 1)
  {
    hide Sorted, Maximal, StrictlySorted;
    NextIsEnough(sorted, i);
    AppendLarger(filtered, sorted, i);
    assert sorted[..i + 1] == sorted[..i] + [sorted[i]] && sorted[i..] == [sorted[i]] + sorted[i + 1..];
  }

  lemma LastKeeps(filtered: seq<string>, sorted: seq<string>)
    requires Sorted(sorted, Self) && sorted != [] && Filtered(filtered, sorted, |sorted| - 1)
    ensures StrictlySorted(filtered + [sorted[|sorted| - 1]])
    ensures forall x :: x in filtered + [sorted[|sorted| - 1]] <==> x in sorted && Maximal(x, sorted)
  {
    hide Sorted, Maximal, StrictlySorted;
    var n := |sorted| - 1;
    LastIsMaximal(sorted);
    AppendLarger(filtered, sorted, n);
    assert sorted == sorted[..n] + [sorted[n]];
  }

  /** Sorts the paths in place and keeps those that the next one does not extend. */
  method RejectDirs(paths: array<string>) returns (filtered: seq<string>)
    modifies paths
    ensures multiset(paths[..]) == multiset(old(paths[..])) && Sorted(paths[..], Self)
    ensures StrictlySorted(filtered)
    ensures forall x :: x in filtered <==> x in old(paths[..]) && Maximal(x, old(paths[..]))
  {
    hide Leq, Sorted, Maximal, StrictlySorted;
    filtered := [];
    ghost var input := paths[..];
    var sorted := SortBy(paths[..], Self);
    SortByKeeps(paths[..], Self);
    forall i | 0 <= i < paths.Length { paths[i] := sorted[i]; }
    assert paths[..] == sorted;
    SameMembers(input, sorted);
    if paths.Length == 0 {
      NothingSorted();
      return;
    }
    var n := paths.Length - 1;
    assert Filtered(filtered, sorted, 0) by { NothingSorted(); }
    for i := 0 to n
      invariant paths[..] == sorted
      invariant Filtered(filtered, sorted, i)
    {
      if paths[i] <= paths[i + 1] {
        SkipKeeps(filtered, sorted, i);
      } else {
        KeepKeeps(filtered, sorted, i);
        filtered := filtered + [paths[i]];
      }
    }
    LastKeeps(filtered, sorted);
    filtered := filtered + [paths[n]];
  }

  lemma NothingSorted()
    ensures StrictlySorted([])
  {
  }

  lemma SameMembers(a: seq<string>, b: seq<string>)
    requires multiset(a) == multiset(b)
    ensures forall x :: x in a <==> x in b
    ensures forall x :: Maximal(x, a) <==> Maximal(x, b)
  {
    forall x ensures x in a <==> x in b {
      assert x in multiset(a) <==> x in multiset(b);
    }
  }

  /** What has been kept so far comes before the path under way. */
  lemma AppendLarger(filtered: seq<string>, sorted: seq<string>, i: nat)
    requires Sorted(sorted, Self) && i < |sorted| && StrictlySorted(filtered)
    requires forall x <- filtered :: x in sorted[..i] && x !in sorted[i..]
    ensures StrictlySorted(filtered + [sorted[i]])
  {
    hide Leq, Sorted;
    forall k | 0 <= k < |filtered| ensures Less(filtered[k], sorted[i]) {
      assert filtered[k] in filtered;
      var j :| 0 <= j < i && sorted[j] == filtered[k];
      SortedAt(sorted, Self, j, i);
      assert sorted[i] in sorted[i..];
    }
  }
}
