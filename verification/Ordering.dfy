/** The order Go's `<` puts on strings, and sorting by it. */
module Ordering {

  /** Lexicographic order, character by character. */
  predicate Leq(a: string, b: string) {
    a == "" || (b != "" && (a[0] < b[0] || (a[0] == b[0] && Leq(a[1..], b[1..]))))
  }

  predicate Less(a: string, b: string) { Leq(a, b) && a != b }

  lemma {:induction false} LeqRefl(a: string)
    ensures Leq(a, a)
  {
    if a != "" { LeqRefl(a[1..]); }
  }

  lemma {:induction false} LeqTotal(a: string, b: string)
    ensures Leq(a, b) || Leq(b, a)
  {
    if a != "" && b != "" { LeqTotal(a[1..], b[1..]); }
  }

  lemma {:induction false} LeqAntisymmetric(a: string, b: string)
    requires Leq(a, b) && Leq(b, a)
    ensures a == b
  {
    if a != "" {
      LeqAntisymmetric(a[1..], b[1..]);
      assert a == [a[0]] + a[1..] && b == [b[0]] + b[1..];
    }
  }

  lemma {:induction false} LeqTransitive(a: string, b: string, c: string)
    requires Leq(a, b) && Leq(b, c)
    ensures Leq(a, c)
  {
    if a != "" && a[0] == b[0] == c[0] { LeqTransitive(a[1..], b[1..], c[1..]); }
  }

  /** A prefix comes first. */
  lemma {:induction false} PrefixLeq(a: string, b: string)
    requires a <= b
    ensures Leq(a, b)
  {
    if a != "" { PrefixLeq(a[1..], b[1..]); }
  }

  /** Whatever lies between a prefix and its extension has the prefix too. */
  lemma {:induction false} PrefixBetween(p: string, r: string, q: string)
    requires p <= q && Leq(p, r) && Leq(r, q)
    ensures p <= r
  {
    if p != "" {
      assert q[0] == p[0];
      PrefixBetween(p[1..], r[1..], q[1..]);
      assert p == [p[0]] + p[1..] && r == [r[0]] + r[1..];
    }
  }

  /** Every element comes before all that follow it. */
  ghost predicate Sorted<T>(s: seq<T>, key: T -> string) {
    s == [] || ((forall x <- s[1..] :: Leq(key(s[0]), key(x))) && Sorted(s[1..], key))
  }

  function Insert<T>(x: T, s: seq<T>, key: T -> string): seq<T> {
    if s == [] || Leq(key(x), key(s[0])) then [x] + s else [s[0]] + Insert(x, s[1..], key)
  }

  /** Any sort by key: with distinct keys there is only one result, see `SortUnique`. */
  function SortBy<T>(s: seq<T>, key: T -> string): seq<T> {
    if s == [] then [] else Insert(s[0], SortBy(s[1..], key), key)
  }

  lemma {:induction false} InsertMembers<T>(x: T, s: seq<T>, key: T -> string)
    ensures multiset(Insert(x, s, key)) == multiset(s) + multiset{x}
    ensures forall y :: y in Insert(x, s, key) <==> y == x || y in s
    ensures |Insert(x, s, key)| == |s| + 1
  {
    if s != [] && !Leq(key(x), key(s[0])) {
      InsertMembers(x, s[1..], key);
      assert s == [s[0]] + s[1..];
    }
  }

  lemma SortedCons<T>(x: T, s: seq<T>, key: T -> string)
    requires Sorted(s, key) && forall y <- s :: Leq(key(x), key(y))
    ensures Sorted([x] + s, key)
  {
    hide Leq;
    assert ([x] + s)[1..] == s;
  }

  /** What comes before the head of a sorted list comes before all of it. */
  lemma BelowAll<T>(x: T, s: seq<T>, key: T -> string)
    requires Sorted(s, key) && s != [] && Leq(key(x), key(s[0]))
    ensures forall y <- s :: Leq(key(x), key(y))
  {
    hide Leq;
    forall y <- s ensures Leq(key(x), key(y)) {
      assert s == [s[0]] + s[1..];
      if y != s[0] { LeqTransitive(key(x), key(s[0]), key(y)); }
    }
  }

  lemma {:induction false} InsertSorts<T>(x: T, s: seq<T>, key: T -> string)
    requires Sorted(s, key)
    ensures Sorted(Insert(x, s, key), key)
  {
    hide Leq;
    if s == [] {
    } else if Leq(key(x), key(s[0])) {
      BelowAll(x, s, key);
      SortedCons(x, s, key);
    } else {
      LeqTotal(key(x), key(s[0]));
      var rest := Insert(x, s[1..], key);
      InsertMembers(x, s[1..], key);
      InsertSorts(x, s[1..], key);
      forall y <- rest ensures Leq(key(s[0]), key(y)) {
        assert y in multiset(rest);
      }
      SortedCons(s[0], rest, key);
    }
  }

  lemma {:induction false} SortByKeeps<T>(s: seq<T>, key: T -> string)
    ensures Sorted(SortBy(s, key), key)
    ensures multiset(SortBy(s, key)) == multiset(s)
    ensures |SortBy(s, key)| == |s|
  {
    hide Leq;
    if s != [] {
      SortByKeeps(s[1..], key);
      InsertSorts(s[0], SortBy(s[1..], key), key);
      InsertMembers(s[0], SortBy(s[1..], key), key);
      assert s == [s[0]] + s[1..];
    }
  }

  lemma {:induction false} SortedAt<T>(s: seq<T>, key: T -> string, i: nat, j: nat)
    requires Sorted(s, key) && i <= j < |s|
    ensures Leq(key(s[i]), key(s[j]))
  {
    if i == j {
      LeqRefl(key(s[i]));
    } else if i == 0 {
      assert s[1..][j - 1] in s[1..];
    } else {
      SortedAt(s[1..], key, i - 1, j - 1);
    }
  }

  /** Elements with the same key are the same element; distinct keys are a special case. */
  ghost predicate Identified<T>(s: seq<T>, key: T -> string) {
    forall x <- s, y <- s :: key(x) == key(y) ==> x == y
  }

  /** The head of one sorted arrangement is the head of any other. */
  lemma SameHead<T>(a: seq<T>, b: seq<T>, key: T -> string)
    requires multiset(a) == multiset(b) && Sorted(a, key) && Sorted(b, key) && a != [] && b != []
    requires Identified(a, key)
    ensures a[0] == b[0]
  {
    hide Leq, Sorted;
    assert a[0] in multiset(b) && b[0] in multiset(a);
    var i :| 0 <= i < |b| && b[i] == a[0];
    var j :| 0 <= j < |a| && a[j] == b[0];
    SortedAt(a, key, 0, j);
    SortedAt(b, key, 0, i);
    LeqAntisymmetric(key(a[0]), key(b[0]));
  }

  lemma SameTail<T>(a: seq<T>, b: seq<T>)
    requires multiset(a) == multiset(b) && a != [] && b != [] && a[0] == b[0]
    ensures multiset(a[1..]) == multiset(b[1..])
  {
    assert a == [a[0]] + a[1..] && b == [b[0]] + b[1..];
    assert multiset(a[1..]) == multiset(a) - multiset{a[0]};
  }

  /** Two sorted arrangements of the same elements are the same, where the key tells elements apart. */
  lemma {:induction false} SortUnique<T>(a: seq<T>, b: seq<T>, key: T -> string)
    requires multiset(a) == multiset(b) && Sorted(a, key) && Sorted(b, key)
    requires Identified(a, key)
    ensures a == b
  {
    hide Leq;
    assert |multiset(a)| == |a| && |multiset(b)| == |b|;
    if a != [] {
      SameHead(a, b, key);
      SameTail(a, b);
      SortUnique(a[1..], b[1..], key);
      assert a == [a[0]] + a[1..] && b == [b[0]] + b[1..];
    }
  }

  lemma SortByMembers<T>(s: seq<T>, key: T -> string)
    ensures forall x :: x in SortBy(s, key) <==> x in s
  {
    SortByKeeps(s, key);
    forall x ensures x in SortBy(s, key) <==> x in s {
      assert x in multiset(s) <==> x in multiset(SortBy(s, key));
    }
  }

  lemma IdentifiedInAnyOrder<T>(a: seq<T>, b: seq<T>, key: T -> string)
    requires multiset(a) == multiset(b) && Identified(a, key)
    ensures Identified(b, key)
  {
    forall x <- b, y <- b | key(x) == key(y) ensures x == y {
      assert x in multiset(a) && y in multiset(a);
    }
  }

  /** Any sorted arrangement is the one that `SortBy` finds, whatever order the elements came in. */
  lemma SortedIsSortBy<T>(listed: seq<T>, sorted: seq<T>, key: T -> string)
    requires multiset(sorted) == multiset(listed) && Sorted(sorted, key) && Identified(listed, key)
    ensures sorted == SortBy(listed, key)
  {
    hide Leq, Sorted, Identified;
    SortByKeeps(listed, key);
    IdentifiedInAnyOrder(listed, sorted, key);
    SortUnique(sorted, SortBy(listed, key), key);
  }

  lemma SortByInAnyOrder<T>(a: seq<T>, b: seq<T>, key: T -> string)
    requires multiset(a) == multiset(b) && Identified(a, key)
    ensures SortBy(a, key) == SortBy(b, key)
  {
    hide Leq, Sorted, Identified;
    SortByKeeps(a, key);
    IdentifiedInAnyOrder(a, b, key);
    SortedIsSortBy(b, SortBy(a, key), key);
  }

  /** `a` comes before `b` when it is a prefix of it, or has the smaller character where they first differ. */
  lemma {:induction false} LeqExactly(a: string, b: string)
    ensures Leq(a, b) <==> a <= b || exists i :: DiffersAt(a, b, i) && a[i] < b[i]
  {
    forall i | DiffersAt(a, b, i) && i > 0 ensures a[0] == b[0] { SameFirst(a, b, i); }
    if a != "" && b != "" && a[0] == b[0] {
      LeqExactly(a[1..], b[1..]);
      assert a == [a[0]] + a[1..] && b == [b[0]] + b[1..];
      if i :| DiffersAt(a[1..], b[1..], i) && a[1..][i] < b[1..][i] { assert DiffersAt(a, b, i + 1); }
      if i :| DiffersAt(a, b, i) && a[i] < b[i] {
        assert a[1..][..i - 1] == a[..i][1..] && b[1..][..i - 1] == b[..i][1..];
        assert DiffersAt(a[1..], b[1..], i - 1);
      }
    } else if a != "" && b != "" {
      assert DiffersAt(a, b, 0);
    }
  }

  lemma SameFirst(a: string, b: string, i: int)
    requires DiffersAt(a, b, i) && i > 0
    ensures a[0] == b[0]
  {
    assert a[..i][0] == b[..i][0];
  }

  ghost predicate DiffersAt(a: string, b: string, i: int) {
    0 <= i < |a| && i < |b| && a[..i] == b[..i] && a[i] != b[i]
  }
}
