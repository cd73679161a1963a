/**
 Finite directed graphs given by successor lists, and the depth-bounded search for a cycle that
 inventory validation runs over the `Parents` lists.
 */
module Graph {

  type Edges = map<string, seq<string>>

  /** Every successor is a node. */
  ghost predicate Closed(e: Edges) {
    forall n <- e, m <- e[n] :: m in e
  }

  ghost predicate Walk(e: Edges, p: seq<string>) {
    && |p| >= 1
    && (forall i | 0 <= i < |p| :: p[i] in e)
    && (forall i | 0 < i < |p| :: p[i] in e[p[i - 1]])
  }

  ghost predicate WalkBetween(e: Edges, p: seq<string>, a: string, b: string) {
    |p| >= 2 && p[0] == a && p[|p| - 1] == b && Walk(e, p)
  }

  /** `b` can be reached from `a` in one or more steps. */
  ghost predicate Reach(e: Edges, a: string, b: string) {
    exists p :: WalkBetween(e, p, a, b)
  }

  ghost predicate Cyclic(e: Edges) {
    exists n :: Reach(e, n, n)
  }

  // ---------- Reachability ----------

  lemma ReachStep(e: Edges, a: string, b: string)
    requires Closed(e) && a in e && b in e[a]
    ensures Reach(e, a, b)
  {
    assert WalkBetween(e, [a, b], a, b);
  }

  lemma ReachTrans(e: Edges, a: string, b: string, c: string)
    requires Reach(e, a, b) && Reach(e, b, c)
    ensures Reach(e, a, c)
  {
    var p :| WalkBetween(e, p, a, b);
    var q :| WalkBetween(e, q, b, c);
    var pq := p + q[1..];
    forall i | 0 < i < |pq| ensures pq[i] in e && pq[i] in e[pq[i - 1]] {
      if i >= |p| {
        assert pq[i] == q[i - |p| + 1];
        assert pq[i - 1] == q[i - |p|];
      }
    }
    assert WalkBetween(e, pq, a, c);
  }

  /** Reaching a node means reaching it through a successor. */
  lemma ReachFirst(e: Edges, a: string, c: string) returns (b: string)
    requires Reach(e, a, c)
    ensures a in e && c in e && b in e[a] && (b == c || Reach(e, b, c))
  {
    var p :| WalkBetween(e, p, a, c);
    b := p[1];
    if |p| > 2 { assert WalkBetween(e, p[1..], b, c); }
  }

  /** Everything that can be reached from `n`: a measure for walks without a visited set. */
  ghost function Below(e: Edges, n: string): set<string> {
    set m | m in e && Reach(e, n, m)
  }

  lemma BelowShrinks(e: Edges, n: string, m: string)
    requires Closed(e) && !Cyclic(e) && n in e && m in e[n]
    ensures m in Below(e, n) && Below(e, m) < Below(e, n)
  {
    ReachStep(e, n, m);
    forall k | k in Below(e, m) ensures k in Below(e, n) { ReachTrans(e, n, m, k); }
    assert !Reach(e, m, m);
  }

  /** What is below `n` are its successors and what is below them. */
  lemma BelowSplit(e: Edges, n: string, k: string)
    requires Closed(e) && n in e
    ensures k in Below(e, n) <==> exists m :: m in e[n] && (k == m || k in Below(e, m))
  {
    if k in Below(e, n) {
      var m := ReachFirst(e, n, k);
      assert m in e[n];
    }
    if m :| m in e[n] && (k == m || k in Below(e, m)) {
      ReachStep(e, n, m);
      if k != m { ReachTrans(e, n, m, k); }
    }
  }

  /** In an acyclic graph whose only sink is `top`, every other node reaches `top`. */
  lemma {:induction false} TopReached(e: Edges, top: string, n: string)
    requires Closed(e) && !Cyclic(e) && n in e && n != top
    requires forall m <- e :: m != top ==> e[m] != []
    ensures Reach(e, n, top)
    decreases Below(e, n)
  {
    var m := e[n][0];
    BelowShrinks(e, n, m);
    if m != top {
      TopReached(e, top, m);
      ReachTrans(e, n, m, top);
    }
  }

  /** A non-empty acyclic graph has a sink. */
  lemma {:induction false} SinkExists(e: Edges, n: string) returns (sink: string)
    requires Closed(e) && !Cyclic(e) && n in e
    ensures sink in e && e[sink] == [] && (sink == n || Reach(e, n, sink))
    decreases Below(e, n)
  {
    if e[n] == [] { return n; }
    var m := e[n][0];
    BelowShrinks(e, n, m);
    sink := SinkExists(e, m);
    if sink != m { ReachTrans(e, n, m, sink); }
  }

  // ---------- The other direction ----------

  ghost predicate Inverse(e: Edges, f: Edges) {
    && e.Keys == f.Keys
    && forall n <- e, m <- e :: m in e[n] <==> n in f[m]
  }

  lemma ReachInverse(e: Edges, f: Edges, a: string, b: string)
    requires Inverse(e, f)
    ensures Reach(e, a, b) <==> Reach(f, b, a)
  {
    if Reach(e, a, b) { ReverseWalk(e, f, a, b); }
    if Reach(f, b, a) { ReverseWalk(f, e, b, a); }
  }

  lemma ReverseWalk(e: Edges, f: Edges, a: string, b: string)
    requires Inverse(e, f) && Reach(e, a, b)
    ensures Reach(f, b, a)
  {
    var p :| WalkBetween(e, p, a, b);
    var q := seq(|p|, i requires 0 <= i < |p| => p[|p| - 1 - i]);
    forall i | 0 < i < |q| ensures q[i] in f[q[i - 1]] {
      assert p[|p| - i] in e[p[|p| - i - 1]];
    }
    assert WalkBetween(f, q, b, a);
  }

  lemma CyclicInverse(e: Edges, f: Edges)
    requires Inverse(e, f)
    ensures Cyclic(e) <==> Cyclic(f)
  {
    forall n ensures Reach(e, n, n) <==> Reach(f, n, n) { ReachInverse(e, f, n, n); }
  }

  // ---------- The depth-bounded search ----------

  function CircularReference(e: Edges, parents: seq<string>, group: string, maxDepth: nat): bool
    requires Closed(e) && forall p <- parents :: p in e
    decreases maxDepth
  {
    maxDepth == 0 ||
    exists i | 0 <= i < |parents| ::
      parents[i] == group || CircularReference(e, e[parents[i]], group, maxDepth - 1)
  }

  /** A way back to the group is found under every budget. */
  lemma {:induction false} CycleFound(e: Edges, p: seq<string>, maxDepth: nat)
    requires Closed(e) && Walk(e, p) && |p| >= 2
    ensures CircularReference(e, e[p[0]], p[|p| - 1], maxDepth)
    decreases |p|
  {
    if maxDepth > 0 {
      var parents := e[p[0]];
      var i :| 0 <= i < |parents| && parents[i] == p[1];
      if |p| > 2 {
        var rest := p[1..];
        assert Walk(e, rest);
        CycleFound(e, rest, maxDepth - 1);
        assert rest[0] == p[1] && rest[|rest| - 1] == p[|p| - 1];
      }
    }
  }

  /** A positive answer comes with a walk back to the group, or with one as long as the budget. */
  lemma {:induction false} SearchWalk(e: Edges, n: string, group: string, maxDepth: nat) returns (p: seq<string>)
    requires Closed(e) && n in e && CircularReference(e, e[n], group, maxDepth)
    ensures Walk(e, p) && p[0] == n && ((|p| >= 2 && p[|p| - 1] == group) || |p| == maxDepth + 1)
    decreases maxDepth
  {
    if maxDepth == 0 { return [n]; }
    var parents := e[n];
    var i :| 0 <= i < |parents| &&
      (parents[i] == group || CircularReference(e, e[parents[i]], group, maxDepth - 1));
    if parents[i] == group { return [n, group]; }
    var rest := SearchWalk(e, parents[i], group, maxDepth - 1);
    p := [n] + rest;
  }

  /** Among more positions than values, two hold the same value. */
  lemma {:induction false} Pigeonhole(p: seq<string>, values: set<string>) returns (i: nat, j: nat)
    requires (forall k | 0 <= k < |p| :: p[k] in values) && |p| > |values|
    ensures i < j < |p| && p[i] == p[j]
    decreases |p|
  {
    var n := |p| - 1;
    if k :| 0 <= k < n && p[k] == p[n] { return k, n; }
    i, j := Pigeonhole(p[..n], values - {p[n]});
  }

  lemma LongWalkCycles(e: Edges, p: seq<string>)
    requires Walk(e, p) && |p| > |e|
    ensures Cyclic(e)
  {
    var i, j := Pigeonhole(p, e.Keys);
    var loop := p[i..j + 1];
    assert WalkBetween(e, loop, p[i], p[i]);
    assert Reach(e, p[i], p[i]);
  }

  predicate NoCircularReferences(e: Edges)
    requires Closed(e)
  {
    forall g <- e :: !CircularReference(e, e[g], g, |e|)
  }

  /** The search is exact: with the number of groups as its budget it reports a cycle if and only if there is one. */
  lemma SearchIsExact(e: Edges)
    requires Closed(e)
    ensures NoCircularReferences(e) <==> !Cyclic(e)
  {
    if Cyclic(e) {
      var n :| Reach(e, n, n);
      var p :| WalkBetween(e, p, n, n);
      CycleFound(e, p, |e|);
      assert CircularReference(e, e[n], n, |e|);
      assert !NoCircularReferences(e);
    }
    if !NoCircularReferences(e) {
      var g :| g in e && CircularReference(e, e[g], g, |e|);
      var p := SearchWalk(e, g, g, |e|);
      if |p| >= 2 && p[|p| - 1] == g {
        assert WalkBetween(e, p, g, g);
        assert Reach(e, g, g);
      } else {
        LongWalkCycles(e, p);
      }
      assert Cyclic(e);
    }
  }

  // ---------- The budget is tight ----------

  /** The name of the group at a height of the chain. */
  function Link(height: nat): (name: string)
    ensures |name| == height
  {
    if height == 0 then "" else Link(height - 1) + "g"
  }

  /** A chain of `n` groups, each the child of the one below it. */
  function Chain(n: nat): Edges {
    if n == 0 then map[]
    else Chain(n - 1)[Link(n) := if n == 1 then [] else [Link(n - 1)]]
  }

  lemma {:induction false} ChainAt(n: nat, name: string)
    requires name in Chain(n)
    ensures name == Link(|name|) && 1 <= |name| <= n
    ensures Chain(n)[name] == if |name| == 1 then [] else [Link(|name| - 1)]
  {
    if name != Link(n) { ChainAt(n - 1, name); }
  }

  lemma {:induction false} ChainHas(n: nat, m: nat)
    requires 1 <= m <= n
    ensures Link(m) in Chain(n)
  {
    if m < n { ChainHas(n - 1, m); }
  }

  lemma {:induction false} ChainSize(n: nat)
    ensures |Chain(n)| == n
  {
    if n > 0 {
      ChainSize(n - 1);
      if Link(n) in Chain(n - 1) { ChainAt(n - 1, Link(n)); }
      assert Chain(n).Keys == Chain(n - 1).Keys + {Link(n)};
    }
  }

  lemma ChainClosed(n: nat)
    ensures Closed(Chain(n))
  {
    hide Chain, Link;
    forall name <- Chain(n), m <- Chain(n)[name] ensures m in Chain(n) {
      ChainAt(n, name);
      ChainHas(n, |name| - 1);
    }
  }

  /** Walks go down the chain. */
  lemma {:induction false} ChainGoesDown(n: nat, p: seq<string>, i: nat)
    requires Walk(Chain(n), p) && i < |p|
    ensures |p[i]| + i <= |p[0]|
  {
    hide Chain, Link;
    if i > 0 {
      ChainGoesDown(n, p, i - 1);
      ChainAt(n, p[i - 1]);
    }
  }

  lemma {:induction false} ChainExhausts(n: nat, m: nat, group: string, maxDepth: nat)
    requires 1 <= m <= n && maxDepth < m && Closed(Chain(n)) && Link(m) in Chain(n)
    ensures CircularReference(Chain(n), Chain(n)[Link(m)], group, maxDepth)
    decreases maxDepth
  {
    hide Chain, Link;
    if maxDepth > 0 {
      ChainAt(n, Link(m));
      ChainHas(n, m - 1);
      ChainExhausts(n, m - 1, group, maxDepth - 1);
      assert Chain(n)[Link(m)][0] == Link(m - 1);
    }
  }

  /** One step of budget less is not enough: a chain of as many groups exhausts it, although it has no cycle. */
  lemma BudgetIsTight(n: nat)
    requires n >= 1
    ensures var e := Chain(n);
      && |e| == n && Closed(e) && !Cyclic(e)
      && Link(n) in e && CircularReference(e, e[Link(n)], Link(n), n - 1)
  {
    hide Chain, Link;
    var e := Chain(n);
    ChainSize(n);
    ChainClosed(n);
    ChainHas(n, n);
    if Cyclic(e) {
      var g :| Reach(e, g, g);
      var p :| WalkBetween(e, p, g, g);
      ChainGoesDown(n, p, |p| - 1);
    }
    ChainExhausts(n, n, Link(n), n - 1);
  }
}
