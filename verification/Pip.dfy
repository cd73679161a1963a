/** Package names as the `pip` module recovers them: version specifiers and extras may hold commas too. */
module Pip {
  import opened Text

  const SPECIFIERS := [">=", "<=", ">", "<", "==", "!=", "~="]

  /** A part starts a package name unless it starts with a version specifier. */
  predicate IsPackageName(part: string) {
    var trimmed := TrimSpace(part);
    forall k <- SPECIFIERS :: !(k <= trimmed)
  }

  /** All parts between commas, over all names. */
  function Parts(names: seq<string>): seq<string> {
    if names == [] then [] else Parts(names[..|names| - 1]) + Split(names[|names| - 1], ',')
  }

  /** Whether a bracket is open after the given parts. */
  predicate InBrackets(parts: seq<string>) {
    parts != [] &&
    var last := parts[|parts| - 1];
    (InBrackets(parts[..|parts| - 1]) || '[' in last) && ']' !in last
  }

  /** A bracket is open exactly when some part opened one and no part from there on closes one. */
  lemma {:induction false} InBracketsExactly(parts: seq<string>)
    ensures InBrackets(parts) <==> exists j | 0 <= j < |parts| :: OpenSince(parts, j)
  {
    if parts != [] {
      var n := |parts| - 1;
      InBracketsExactly(parts[..n]);
      forall j | 0 <= j < n ensures OpenSince(parts, j) <==> OpenSince(parts[..n], j) && ']' !in parts[n] {
        assert parts[j..] == parts[..n][j..] + [parts[n]];
      }
      assert parts[n..] == [parts[n]];
      assert OpenSince(parts, n) <==> '[' in parts[n] && ']' !in parts[n];
    }
  }

  ghost predicate OpenSince(parts: seq<string>, j: nat)
    requires j < |parts|
  {
    '[' in parts[j] && forall p <- parts[j..] :: ']' !in p
  }

  /** Part `i` begins a package name of its own. */
  predicate Cut(parts: seq<string>, i: nat)
    requires i < |parts|
  {
    i > 0 && IsPackageName(parts[i]) && !InBrackets(parts[..i])
  }

  /** No package is without parts. */
  predicate Filled(groups: seq<seq<string>>) {
    forall i | 0 <= i < |groups| :: groups[i] != []
  }

  /** The parts of each package; without any parts there is one package without any. */
  function Groups(parts: seq<string>): (groups: seq<seq<string>>)
    ensures groups != [] && (parts != [] ==> Filled(groups))
  {
    if parts == [] then [[]]
    else
      var n := |parts| - 1;
      var before := Groups(parts[..n]);
      if Cut(parts, n) then before + [[parts[n]]]
      else before[..|before| - 1] + [before[|before| - 1] + [parts[n]]]
  }

  function JoinAll(groups: seq<seq<string>>): seq<string> {
    if groups == [] then [] else JoinAll(groups[..|groups| - 1]) + [Join(groups[|groups| - 1], ',')]
  }

  function Recovered(names: seq<string>): seq<string> { JoinAll(Groups(Parts(names))) }

  /** Splits the names at every comma and joins the parts again, package by package. */
  method RecoverPackageName(names: seq<string>) returns (packageNames: seq<string>)
    ensures packageNames == Recovered(names)
  {
    var parts: seq<string> := [];
    for i := 0 to |names|
      invariant parts == Parts(names[..i])
    {
      assert names[..i + 1][..i] == names[..i];
      parts := parts + Split(names[i], ',');
    }
    assert names[..|names|] == names;

    var nameParts: seq<string> := [];
    packageNames := [];
    var inBrackets := false;
    for i := 0 to |parts|
      invariant inBrackets == InBrackets(parts[..i])
      invariant var groups := Groups(parts[..i]);
        nameParts == groups[|groups| - 1] && packageNames == JoinAll(groups[..|groups| - 1])
    {
      Step(parts, i);
      var name := parts[i];
      if IsPackageName(name) && !inBrackets {
        if |nameParts| != 0 { packageNames := packageNames + [Join(nameParts, ',')]; }
        nameParts := [];
      }
      if '[' in name { inBrackets := true; }
      if inBrackets && ']' in name { inBrackets := false; }
      nameParts := nameParts + [name];
    }
    assert parts[..|parts|] == parts;
    packageNames := packageNames + [Join(nameParts, ',')];
  }

  /** What one more part does to the packages and to the brackets. */
  lemma Step(parts: seq<string>, i: nat)
    requires i < |parts|
    ensures InBrackets(parts[..i + 1]) <==> (InBrackets(parts[..i]) || '[' in parts[i]) && ']' !in parts[i]
    ensures
      var before, after := Groups(parts[..i]), Groups(parts[..i + 1]);
      var b, a := |before| - 1, |after| - 1;
      if Cut(parts, i) then
        after[a] == [parts[i]] && JoinAll(after[..a]) == JoinAll(before[..b]) + [Join(before[b], ',')]
      else after[a] == before[b] + [parts[i]] && after[..a] == before[..b]
    ensures Groups(parts[..i])[|Groups(parts[..i])| - 1] == [] <==> i == 0
  {
    hide IsPackageName, Join;
    var now := parts[..i + 1];
    assert now[..i] == parts[..i] && now[i] == parts[i];
    assert Cut(now, i) == Cut(parts, i);
    var before, after := Groups(parts[..i]), Groups(now);
    if Cut(parts, i) {
      assert after[..|after| - 1] == before;
    } else {
      assert after[..|after| - 1] == before[..|before| - 1];
    }
  }

  // ---------- Nothing is lost ----------

  function Flatten(groups: seq<seq<string>>): seq<string> {
    if groups == [] then [] else Flatten(groups[..|groups| - 1]) + groups[|groups| - 1]
  }

  lemma FlattenSnoc(groups: seq<seq<string>>, g: seq<string>)
    ensures Flatten(groups + [g]) == Flatten(groups) + g
  {
    assert (groups + [g])[..|groups|] == groups;
  }

  /** One more part in the last package comes out last. */
  lemma FlattenGrow(groups: seq<seq<string>>, part: string)
    requires groups != []
    ensures var b := |groups| - 1;
      Flatten(groups[..b] + [groups[b] + [part]]) == Flatten(groups) + [part]
  {
    var b := |groups| - 1;
    FlattenSnoc(groups[..b], groups[b] + [part]);
  }

  lemma FlattenNone()
    ensures Flatten([[]]) == []
  {
    var none: seq<seq<string>> := [[]];
    assert none[..0] == [];
  }

  /** The packages are the parts, in order, none of them lost or used twice. */
  lemma {:induction false} GroupsHoldTheParts(parts: seq<string>)
    ensures Flatten(Groups(parts)) == parts
  {
    hide IsPackageName, InBrackets, Flatten;
    if parts == [] {
      FlattenNone();
    } else {
      var n := |parts| - 1;
      GroupsHoldTheParts(parts[..n]);
      FlattenSnoc(Groups(parts[..n]), [parts[n]]);
      FlattenGrow(Groups(parts[..n]), parts[n]);
    }
  }

  lemma {:induction false} JoinAppend(a: seq<string>, b: seq<string>)
    requires a != [] && b != []
    ensures Join(a + b, ',') == Join(a, ',') + "," + Join(b, ',')
  {
    var n := |b| - 1;
    var all := a + b;
    assert all[..|all| - 1] == a + b[..n];
    if n == 0 {
      assert a + b[..0] == a;
    } else {
      JoinAppend(a, b[..n]);
    }
  }

  /** Joining packages and then their texts is joining all parts at once. */
  lemma {:induction false} JoinOfJoins(groups: seq<seq<string>>)
    requires groups != [] && Filled(groups)
    ensures Join(JoinAll(groups), ',') == Join(Flatten(groups), ',') && |JoinAll(groups)| == |groups|
    ensures Flatten(groups) != []
  {
    var n := |groups| - 1;
    var text := Join(groups[n], ',');
    if n == 0 {
      assert groups[..0] == [];
      assert JoinAll(groups) == [text] && Flatten(groups) == groups[0];
    } else {
      JoinOfJoins(groups[..n]);
      JoinAppend(Flatten(groups[..n]), groups[n]);
      JoinAppend(JoinAll(groups[..n]), [text]);
    }
  }

  /** The parts are those of all names joined by commas. */
  lemma {:induction false} PartsOfJoined(names: seq<string>)
    requires names != []
    ensures Parts(names) == Split(Join(names, ','), ',')
  {
    hide Split;
    var n := |names| - 1;
    if n == 0 {
      assert Parts(names[..0]) == [];
    } else {
      PartsOfJoined(names[..n]);
      SplitAround(Join(names[..n], ','), ',', names[n]);
    }
  }

  lemma NoParts()
    ensures JoinAll([[]]) == [""] && JoinAll([[""]]) == [""]
  {
    var none: seq<seq<string>> := [[]];
    assert none[..0] == [] && [[""]][..0] == [];
  }

  /** Joined by commas, what comes out is what went in. */
  lemma TextConserved(names: seq<string>)
    ensures Join(Recovered(names), ',') == Join(names, ',')
    ensures Recovered(names) != []
  {
    var parts := Parts(names);
    if names == [] {
      NoParts();
    } else {
      PartsOfJoined(names);
      GroupsHoldTheParts(parts);
      JoinOfJoins(Groups(parts));
      JoinSplit(Join(names, ','), ',');
    }
  }

  /** How the input was cut into names does not matter, only its text does. */
  lemma OnlyTheTextMatters(a: seq<string>, b: seq<string>)
    requires a != [] && b != [] && Join(a, ',') == Join(b, ',')
    ensures Recovered(a) == Recovered(b)
  {
    PartsOfJoined(a);
    PartsOfJoined(b);
  }

  lemma OneEmptyPart()
    ensures Parts([""]) == [""] && Groups([""]) == [[""]]
  {
    hide IsPackageName, InBrackets;
    assert [""][..0] == [];
    assert Split("", ',') == [""];
    assert !Cut([""], 0);
    assert Groups([]) == [[]];
  }

  lemma NothingRecovered()
    ensures Recovered([]) == [""] && Recovered([""]) == [""]
  {
    hide JoinAll;
    NoParts();
    OneEmptyPart();
  }

  /** Recovering what has been recovered changes nothing. */
  lemma Idempotent(names: seq<string>)
    ensures Recovered(Recovered(names)) == Recovered(names)
  {
    hide Recovered;
    TextConserved(names);
    if names == [] {
      NothingRecovered();
    } else {
      OnlyTheTextMatters(names, Recovered(names));
    }
  }

  // ---------- Where the cuts are ----------

  /** Package `j` starts at part `i`. */
  ghost predicate StartsAt(groups: seq<seq<string>>, j: nat, i: nat) {
    j < |groups| && |Flatten(groups[..j])| == i
  }

  /** Some package other than the first starts at part `i`. */
  ghost predicate Start(groups: seq<seq<string>>, i: nat) {
    exists j :: 0 < j && StartsAt(groups, j, i)
  }

  /** The last part moves no start but its own. */
  lemma StartsStep(parts: seq<string>, j: nat, i: nat)
    requires parts != [] && 0 < j && 0 < i < |parts|
    ensures
      var n := |parts| - 1;
      var before := Groups(parts[..n]);
      StartsAt(Groups(parts), j, i) <==> StartsAt(before, j, i) || (Cut(parts, n) && j == |before| && i == n)
  {
    hide IsPackageName, InBrackets, Flatten;
    var n := |parts| - 1;
    var before, after := Groups(parts[..n]), Groups(parts);
    GroupsHoldTheParts(parts[..n]);
    if j < |before| {
      assert after[..j] == before[..j];
    } else if j == |before| && Cut(parts, n) {
      assert after[..j] == before;
    }
  }

  lemma NoStartAtTheEnd(parts: seq<string>, j: nat)
    requires parts != []
    ensures !StartsAt(Groups(parts), j, |parts|)
  {
    hide Cut, Flatten;
    GroupsHoldTheParts(parts);
    if j < |Groups(parts)| { StartsWithin(Groups(parts), j); }
  }

  /** A package other than the first starts exactly at the parts that are cut off. */
  lemma {:induction false} CutsExactly(parts: seq<string>, i: nat)
    requires 0 < i < |parts|
    ensures Cut(parts, i) <==> Start(Groups(parts), i)
    decreases |parts|
  {
    hide IsPackageName, InBrackets, StartsAt, Groups;
    var n := |parts| - 1;
    var before, after := Groups(parts[..n]), Groups(parts);
    forall j | 0 < j
      ensures StartsAt(after, j, i) <==> StartsAt(before, j, i) || (Cut(parts, n) && j == |before| && i == n)
    {
      StartsStep(parts, j, i);
    }
    if i < n {
      CutsExactly(parts[..n], i);
      assert parts[..n][..i] == parts[..i];
      assert Cut(parts[..n], i) == Cut(parts, i);
      assert Start(before, i) == Start(after, i);
    } else {
      forall j | 0 < j ensures !StartsAt(before, j, n) { NoStartAtTheEnd(parts[..n], j); }
      if Cut(parts, n) { assert StartsAt(after, |before|, i); }
    }
  }

  /** Every package starts before the parts end. */
  lemma StartsWithin(groups: seq<seq<string>>, j: nat)
    requires j < |groups| && Filled(groups)
    ensures |Flatten(groups[..j])| < |Flatten(groups)|
    decreases |groups|
  {
    var n := |groups| - 1;
    if j < n {
      StartsWithin(groups[..n], j);
      assert groups[..n][..j] == groups[..j];
    }
  }

  // ---------- What a version specifier is ----------

  /** The text starts with `<` or `>`, or with one of `==`, `!=`, `~=`. */
  predicate Compares(t: string) {
    t != "" && (t[0] == '<' || t[0] == '>' || (|t| >= 2 && t[1] == '=' && t[0] in {'=', '!', '~'}))
  }

  lemma TwoMarks(t: string, a: char, b: char)
    ensures [a, b] <= t <==> |t| >= 2 && t[0] == a && t[1] == b
    ensures [a] <= t <==> t != "" && t[0] == a
  {}

  /** A part starts a package name unless, spaces aside, a comparison stands first. */
  lemma SpecifierExactly(part: string)
    ensures IsPackageName(part) <==> !Compares(TrimSpace(part))
  {
    hide TrimSpace;
    var t := TrimSpace(part);
    TwoMarks(t, '>', '=');
    TwoMarks(t, '<', '=');
    TwoMarks(t, '=', '=');
    TwoMarks(t, '!', '=');
    TwoMarks(t, '~', '=');
    assert SPECIFIERS == [['>', '='], ['<', '='], ['>'], ['<'], ['=', '='], ['!', '='], ['~', '=']];
    assert forall i | 0 <= i < |SPECIFIERS| :: SPECIFIERS[i] in SPECIFIERS;
    assert SPECIFIERS[2] == ['>'] && SPECIFIERS[3] == ['<'] && SPECIFIERS[4] == ['=', '='];
    assert SPECIFIERS[5] == ['!', '='] && SPECIFIERS[6] == ['~', '='];
  }
}
