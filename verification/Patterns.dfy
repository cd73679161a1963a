/** Host patterns: the part of the inventory that turns a play's `hosts` line into a set of hosts. */
module Patterns {
  import opened Text
  import opened Graph
  import opened InventoryModel
  import opened Inventory
  import opened Options

  datatype Op = Add | Exclude | Intersect
  datatype Term = Term(op: Op, group: string)

  function ParseTerm(term: string): Term
    requires term != ""
  {
    if term[0] == '!' then Term(Exclude, term[1..])
    else if term[0] == '&' then Term(Intersect, term[1..])
    else Term(Add, term)
  }

  /** A term that is empty or names no group. */
  predicate Bad(inv: Inv, term: string) {
    term == "" || ParseTerm(term).group !in inv.groups
  }

  ghost function Apply(inv: Inv, hosts: set<string>, term: string): set<string>
    requires term != ""
  {
    var t := ParseTerm(term);
    match t.op
    case Add => hosts + HostsOf(inv, t.group)
    case Exclude => hosts - HostsOf(inv, t.group)
    case Intersect => hosts * HostsOf(inv, t.group)
  }

  /** Left to right: add, take away or keep the hosts of each group in turn. */
  ghost function Fold(inv: Inv, terms: seq<string>): set<string>
    requires "" !in terms
  {
    if terms == [] then {}
    else Apply(inv, Fold(inv, terms[..|terms| - 1]), terms[|terms| - 1])
  }

  /** The term leaves a host in that is already in. */
  ghost predicate Spares(inv: Inv, term: string, h: string)
    requires term != ""
  {
    var t := ParseTerm(term);
    match t.op
    case Add => true
    case Exclude => h !in HostsOf(inv, t.group)
    case Intersect => h in HostsOf(inv, t.group)
  }

  /** Term `i` adds the host and no later term takes it away. */
  ghost predicate AddedForGood(inv: Inv, terms: seq<string>, i: nat, h: string)
    requires i < |terms| && "" !in terms
  {
    && ParseTerm(terms[i]).op == Add
    && h in HostsOf(inv, ParseTerm(terms[i]).group)
    && forall j | i < j < |terms| :: Spares(inv, terms[j], h)
  }

  /** A host is selected exactly when some term adds it and every later term spares it. */
  lemma {:induction false} SelectedExactly(inv: Inv, terms: seq<string>, h: string)
    requires "" !in terms
    ensures h in Fold(inv, terms) <==> exists i :: 0 <= i < |terms| && AddedForGood(inv, terms, i, h)
  {
    if terms != [] {
      var n := |terms| - 1;
      var before, last := terms[..n], terms[n];
      SelectedExactly(inv, before, h);
      assert terms == before + [last];
      if h in Fold(inv, before) && Spares(inv, last, h) {
        var i :| 0 <= i < |before| && AddedForGood(inv, before, i, h);
        assert AddedForGood(inv, terms, i, h);
      }
      if ParseTerm(last).op == Add && h in HostsOf(inv, ParseTerm(last).group) {
        assert AddedForGood(inv, terms, n, h);
      }
      if i :| 0 <= i < |terms| && AddedForGood(inv, terms, i, h) {
        if i < n {
          assert AddedForGood(inv, before, i, h);
          assert Spares(inv, last, h);
        }
      }
    }
  }

  // ---------- Patterns read off their characters ----------

  /** A term that adds: one that is not empty and starts with neither mark. */
  predicate Plain(term: string) { term != "" && term[0] != '!' && term[0] != '&' }

  /** What the term says of a host that earlier terms let in: it is outside an excluded group, inside a required one. */
  ghost predicate LeavesIn(inv: Inv, term: string, h: string) {
    && (forall g :: term == "!" + g ==> h !in HostsOf(inv, g))
    && (forall g :: term == "&" + g ==> h in HostsOf(inv, g))
  }

  /** Term `i` is a group holding the host, and no later term puts it out. */
  ghost predicate PickedAt(inv: Inv, terms: seq<string>, i: nat, h: string)
    requires i < |terms|
  {
    Plain(terms[i]) && h in HostsOf(inv, terms[i]) && forall j | i < j < |terms| :: LeavesIn(inv, terms[j], h)
  }

  ghost predicate Picked(inv: Inv, terms: seq<string>, h: string) {
    exists i :: 0 <= i < |terms| && PickedAt(inv, terms, i, h)
  }

  /** `!` excludes and `&` requires; every other term leaves all hosts in. */
  lemma SparesReadOff(inv: Inv, term: string, h: string)
    requires term != ""
    ensures Spares(inv, term, h) <==> LeavesIn(inv, term, h)
  {
    hide HostsOf;
    assert term == [term[0]] + term[1..];
    forall g | term == "!" + g || term == "&" + g ensures term[1..] == g {}
  }

  /** A host is selected exactly when some plain term names a group holding it and every later term leaves it in. */
  lemma TermsReadOff(inv: Inv, terms: seq<string>, h: string)
    requires "" !in terms
    ensures h in Fold(inv, terms) <==> Picked(inv, terms, h)
  {
    hide HostsOf, Fold, Spares, LeavesIn;
    SelectedExactly(inv, terms, h);
    forall j | 0 <= j < |terms| ensures terms[j] != "" && (Spares(inv, terms[j], h) <==> LeavesIn(inv, terms[j], h)) {
      assert terms[j] in terms;
      SparesReadOff(inv, terms[j], h);
    }
    forall i | 0 <= i < |terms|
      ensures AddedForGood(inv, terms, i, h) <==> PickedAt(inv, terms, i, h)
    {
    }
  }

  /** A group the term asks for: the term itself, or what follows its mark. */
  predicate Mentions(term: string, g: string) {
    (Plain(term) && term == g) || term == "!" + g || term == "&" + g
  }

  /** A term is bad exactly when it asks for no group of the inventory. */
  lemma BadExactly(inv: Inv, term: string)
    ensures Bad(inv, term) <==> !exists g :: g in inv.groups && Mentions(term, g)
  {
    if term != "" {
      assert term == [term[0]] + term[1..];
      assert Mentions(term, ParseTerm(term).group);
      forall g | Mentions(term, g) ensures g == ParseTerm(term).group {
        if !Plain(term) { assert term[1..] == g; }
      }
    }
  }

  lemma NotAnswerable(inv: Inv, terms: seq<string>, t: string)
    requires t in terms && Bad(inv, t)
    ensures !Answerable(inv, terms)
  {
    BadExactly(inv, t);
  }

  lemma AllAnswerable(inv: Inv, terms: seq<string>)
    requires forall t <- terms :: !Bad(inv, t)
    ensures Answerable(inv, terms)
  {
    forall t <- terms ensures exists g :: g in inv.groups && Mentions(t, g) { BadExactly(inv, t); }
  }

  /** The pattern `all` means the same inside a group pattern as it does alone. */
  lemma AllAgrees(inv: Inv)
    requires Validated(inv)
    ensures Fold(inv, [ALL]) == inv.hosts.Keys
  {
    AllReachesEveryHost(inv);
    assert [ALL][..0] == [];
  }

  datatype Selection = Hosts(hosts: map<string, Host>) | NoSuchGroup | NoSuchHost

  /** Every term asks for a group of the inventory. */
  ghost predicate Answerable(inv: Inv, terms: seq<string>) {
    forall t <- terms :: exists g :: g in inv.groups && Mentions(t, g)
  }

  /** A selection of registered hosts, under their own names. */
  ghost predicate SelectsFrom(d: Data, hosts: map<string, Host>)
    reads d
  {
    forall h <- hosts :: h in d.hosts && hosts[h] == d.hosts[h]
  }

  lemma FoldSnoc(inv: Inv, terms: seq<string>, term: string)
    requires "" !in terms && term != ""
    ensures "" !in terms + [term] && Fold(inv, terms + [term]) == Apply(inv, Fold(inv, terms), term)
  {
    assert (terms + [term])[..|terms|] == terms;
  }

  lemma FoldNothing(inv: Inv)
    ensures Fold(inv, []) == {}
  {}

  method DetermineHostsFromGroupsPattern(d: Data, groupsPattern: string) returns (r: Selection)
    requires d.Valid() && InventoryModel.Registered(d.inv) && !Cyclic(Children(d.inv))
    ensures r.NoSuchGroup? <==> exists t :: t in Split(groupsPattern, ':') && Bad(d.inv, t)
    ensures !r.NoSuchHost?
    ensures r.Hosts? ==> "" !in Split(groupsPattern, ':') && r.hosts.Keys == Fold(d.inv, Split(groupsPattern, ':'))
    ensures r.Hosts? ==> SelectsFrom(d, r.hosts)
    ensures r.Hosts? <==> Answerable(d.inv, Split(groupsPattern, ':'))
    ensures r.Hosts? ==> forall h :: h in r.hosts <==> Picked(d.inv, Split(groupsPattern, ':'), h)
  {
    hide Stands, GroupStands, HostStands, Links, HostLinks, HostsOf, InventoryModel.Registered, Cyclic, Split, Closed;
    hide Picked, Answerable, Fold;
    var terms := Split(groupsPattern, ':');
    var hosts: map<string, Host> := map[];
    assert terms[..0] == [];
    FoldNothing(d.inv);
    for i := 0 to |terms|
      invariant forall t | t in terms[..i] :: !Bad(d.inv, t)
      invariant "" !in terms[..i] && hosts.Keys == Fold(d.inv, terms[..i])
      invariant SelectsFrom(d, hosts)
    {
      var groupName := terms[i];
      var excludeGroup, intersectWithGroup := false, false;
      assert groupName in terms;
      if groupName == "" {
        assert Bad(d.inv, terms[i]);
        NotAnswerable(d.inv, terms, terms[i]);
        return NoSuchGroup;
      } else if groupName[0] == '!' {
        excludeGroup := true;
        groupName := groupName[1..];
      } else if groupName[0] == '&' {
        intersectWithGroup := true;
        groupName := groupName[1..];
      }
      if groupName in d.groups {
        d.InRepr(groupName);
        var groupHosts := GetHosts(d.groups[groupName], d);
        if excludeGroup {
          hosts := hosts - groupHosts.Keys;
        } else if intersectWithGroup {
          hosts := hosts - (hosts.Keys - groupHosts.Keys);
        } else {
          hosts := hosts + groupHosts;
        }
        assert terms[..i + 1] == terms[..i] + [terms[i]];
        FoldSnoc(d.inv, terms[..i], terms[i]);
      } else {
        assert Bad(d.inv, terms[i]);
        NotAnswerable(d.inv, terms, terms[i]);
        return NoSuchGroup;
      }
    }
    assert terms[..|terms|] == terms;
    AllAnswerable(d.inv, terms);
    forall h ensures h in hosts <==> Picked(d.inv, terms, h) { TermsReadOff(d.inv, terms, h); }
    return Hosts(hosts);
  }

  // ---------- Whole patterns ----------

  /** What a trimmed pattern selects, by name; `None` when it names a host or group that does not exist. */
  ghost function Selected(inv: Inv, pattern: string): Option<set<string>> {
    if pattern == "" then Some({})
    else if pattern == ALL then Some(inv.hosts.Keys)
    else if ',' in pattern then
      if forall h <- Split(pattern, ',') :: h in inv.hosts then Some(set h | h in Split(pattern, ',')) else None
    else if ':' in pattern then
      if exists t <- Split(pattern, ':') :: Bad(inv, t) then None else Some(Fold(inv, Split(pattern, ':')))
    else if pattern in inv.hosts then Some({pattern})
    else if pattern in inv.groups then Some(HostsOf(inv, pattern))
    else None
  }

  method DetermineHosts(d: Data, pattern: string) returns (r: Selection)
    requires d.Valid() && InventoryModel.Registered(d.inv) && !Cyclic(Children(d.inv))
    ensures Selected(d.inv, TrimSpace(pattern)) == if r.Hosts? then Some(r.hosts.Keys) else None
    ensures r.Hosts? ==> SelectsFrom(d, r.hosts)
  {
    hide Stands, GroupStands, HostStands, Links, HostLinks, HostsOf, InventoryModel.Registered, Cyclic, Split, Fold;
    var trimmed := TrimSpace(pattern);
    var hosts: map<string, Host> := map[];
    assert hosts.Keys == {};
    if trimmed == "" { return Hosts(hosts); }
    if trimmed == ALL { return Hosts(d.hosts); }
    var hasCommas, hasColons := ',' in trimmed, ':' in trimmed;
    if !hasCommas && !hasColons {
      if trimmed in d.hosts {
        hosts := map[trimmed := d.hosts[trimmed]];
        assert hosts.Keys == {trimmed};
      } else if trimmed in d.groups {
        d.InRepr(trimmed);
        hosts := GetHosts(d.groups[trimmed], d);
      } else {
        return NoSuchHost;
      }
    } else if hasCommas {
      var names := Split(trimmed, ',');
      for i := 0 to |names|
        invariant forall h <- names[..i] :: h in d.inv.hosts
        invariant hosts.Keys == set h | h in names[..i]
        invariant SelectsFrom(d, hosts)
      {
        assert names[i] in names;
        if names[i] in d.hosts {
          hosts := hosts[names[i] := d.hosts[names[i]]];
        } else {
          return NoSuchHost;
        }
      }
      assert names[..|names|] == names;
    } else {
      r := DetermineHostsFromGroupsPattern(d, trimmed);
      return;
    }
    return Hosts(hosts);
  }

  // ---------- The three kinds of pattern ----------

  lemma MarkInside(a: string, c: char, b: string)
    ensures c in a + [c] + b
  {
    assert (a + [c] + b)[|a|] == c;
  }

  /** Names joined with commas select exactly the named hosts, provided all of them are hosts. */
  lemma ListedHosts(inv: Inv, names: seq<string>)
    requires |names| >= 2 && forall p <- names :: ',' !in p
    ensures Selected(inv, Join(names, ',')) ==
            if forall h <- names :: h in inv.hosts then Some(set h | h in names) else None
  {
    hide Split;
    SplitJoin(names, ',');
    MarkInside(Join(names[..|names| - 1], ','), ',', names[|names| - 1]);
  }

  /** Terms joined with colons select exactly the hosts picked by them, provided each asks for a known group. */
  lemma JoinedTerms(inv: Inv, terms: seq<string>, h: string)
    requires |terms| >= 2 && forall t <- terms :: ',' !in t && ':' !in t
    ensures Selected(inv, Join(terms, ':')).Some? <==> Answerable(inv, terms)
    ensures Answerable(inv, terms) ==> (h in Selected(inv, Join(terms, ':')).value <==> Picked(inv, terms, h))
  {
    hide Split, Fold, Picked, Answerable, Bad;
    var pattern := Join(terms, ':');
    SplitJoin(terms, ':');
    MarkInside(Join(terms[..|terms| - 1], ':'), ':', terms[|terms| - 1]);
    JoinChars(terms, ':', ',');
    if t :| t in terms && Bad(inv, t) {
      NotAnswerable(inv, terms, t);
    } else {
      AllAnswerable(inv, terms);
      forall t <- terms ensures t != "" { BadExactly(inv, t); EmptyIsBad(inv); }
      TermsReadOff(inv, terms, h);
    }
  }

  lemma EmptyIsBad(inv: Inv)
    ensures Bad(inv, "")
  {
  }

  lemma {:induction false} JoinChars(parts: seq<string>, sep: char, c: char)
    requires c != sep && forall p <- parts :: c !in p
    ensures c !in Join(parts, sep)
  {
    if |parts| >= 2 { JoinChars(parts[..|parts| - 1], sep, c); }
  }

  /** A single name: nothing else is known, and a group that is no host selects what it does as a term. */
  lemma SingleName(inv: Inv, name: string)
    requires Plain(name) && name != ALL && ',' !in name && ':' !in name
    ensures Selected(inv, name).None? <==> name !in inv.hosts && name !in inv.groups
    ensures name !in inv.hosts && name in inv.groups ==> Selected(inv, name) == Some(Fold(inv, [name]))
  {
    hide HostsOf;
    FoldNothing(inv);
    FoldSnoc(inv, [], name);
    assert [] + [name] == [name];
    assert {} + HostsOf(inv, name) == HostsOf(inv, name);
  }

  /** A name of both a host and a group is the host when it stands alone, and the group within a colon pattern. */
  lemma HostShadowsGroup(inv: Inv, name: string, h: string)
    requires name in inv.hosts && name in inv.groups && Plain(name) && name != ALL && ',' !in name && ':' !in name
    ensures Selected(inv, name) == Some({name})
    ensures Selected(inv, name + ":" + name).Some?
    ensures h in Selected(inv, name + ":" + name).value <==> h in HostsOf(inv, name)
  {
    hide HostsOf;
    var terms := [name, name];
    assert Join(terms, ':') == name + ":" + name by {
      assert terms[..1] == [name];
      assert [':'] == ":";
    }
    assert Mentions(name, name);
    JoinedTerms(inv, terms, h);
    if h in HostsOf(inv, name) { assert PickedAt(inv, terms, 1, h); }
  }
}
