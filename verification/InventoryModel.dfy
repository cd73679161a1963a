/**
 The inventory as a value: what the INI builder adds line by line, what normalisation turns it into,
 and what the graph looks like once validation accepted it. Groups and hosts are known by name.
 */
module InventoryModel {
  import opened Graph
  import opened Options

  type Vars = map<string, string>

  datatype GroupRec = GroupRec(children: seq<string>, hosts: seq<string>, vars: Vars, parents: seq<string>,
      initialized: bool)
  datatype HostRec = HostRec(vars: Vars, groups: seq<string>)
  datatype Inv = Inv(hosts: map<string, HostRec>, groups: map<string, GroupRec>)

  const NEW_GROUP := GroupRec([], [], map[], [], false)
  const NEW_HOST := HostRec(map[], [])
  const ALL := "all"
  const UNGROUPED := "ungrouped"

  function Parents(inv: Inv): Edges { map g | g in inv.groups :: inv.groups[g].parents }

  function Children(inv: Inv): Edges { map g | g in inv.groups :: inv.groups[g].children }

  // ---------- Reading lines ----------

  datatype SectionType = HostSection | VarSection | ChildSection

  /**
   A line as the regular expressions classify it. A data line carries what each of the three data parsers
   makes of it (`None` where the parser rejects it); the section it stands in decides which one counts.
   */
  datatype Line =
    | Blank
    | SectionLine(name: string, typ: SectionType)
    | DataLine(host: Option<(string, Vars)>, assignment: Option<(string, string)>, child: Option<string>)

  datatype ParseState = ParseState(inv: Inv, group: string, typ: SectionType)

  const START_STATE := ParseState(Inv(map[], map[ALL := NEW_GROUP.(initialized := true)]), ALL, HostSection)

  function WithGroup(inv: Inv, name: string): Inv {
    if name in inv.groups then inv else inv.(groups := inv.groups[name := NEW_GROUP])
  }

  function WithHost(inv: Inv, name: string): Inv {
    if name in inv.hosts then inv else inv.(hosts := inv.hosts[name := NEW_HOST])
  }

  function SetGroup(inv: Inv, name: string, rec: GroupRec): Inv { inv.(groups := inv.groups[name := rec]) }

  function SetHost(inv: Inv, name: string, rec: HostRec): Inv { inv.(hosts := inv.hosts[name := rec]) }

  function Initialize(inv: Inv, name: string): (r: Inv)
    requires name in inv.groups
  {
    SetGroup(inv, name, inv.groups[name].(initialized := true))
  }

  function HandleSection(st: ParseState, name: string, typ: SectionType): ParseState {
    var inv := WithGroup(st.inv, name);
    ParseState(if typ == VarSection then inv else Initialize(inv, name), name, typ)
  }

  /** A host line enters the host into the open group, and the group into the host. */
  function AddHost(st: ParseState, name: string, vars: Vars): ParseState
    requires st.group in st.inv.groups
  {
    var known := WithHost(st.inv, name);
    var filled := SetHost(known, name, known.hosts[name].(vars := known.hosts[name].vars + vars));
    var joined := SetHost(filled, name, filled.hosts[name].(groups := filled.hosts[name].groups + [st.group]));
    var g := joined.groups[st.group];
    st.(inv := SetGroup(joined, st.group, g.(hosts := g.hosts + [name])))
  }

  function AddVar(st: ParseState, name: string, value: string): ParseState
    requires st.group in st.inv.groups
  {
    var g := st.inv.groups[st.group];
    st.(inv := SetGroup(st.inv, st.group, g.(vars := g.vars[name := value])))
  }

  /** A child line enters the open group as a parent, then the child; both may be the same group. */
  function AddChild(st: ParseState, name: string): ParseState
    requires st.group in st.inv.groups
  {
    var known := WithGroup(st.inv, name);
    var adopted := SetGroup(known, name, known.groups[name].(parents := known.groups[name].parents + [st.group]));
    var g := adopted.groups[st.group];
    st.(inv := SetGroup(adopted, st.group, g.(children := g.children + [name])))
  }

  /** One line; `None` is a format error. */
  function HandleLine(st: ParseState, line: Line): Option<ParseState>
    requires st.group in st.inv.groups
  {
    match line
    case Blank => Some(st)
    case SectionLine(name, typ) => Some(HandleSection(st, name, typ))
    case DataLine(host, assignment, child) =>
      match st.typ
      case HostSection => if host.None? then None else Some(AddHost(st, host.value.0, host.value.1))
      case VarSection => if assignment.None? then None else Some(AddVar(st, assignment.value.0, assignment.value.1))
      case ChildSection => if child.None? then None else Some(AddChild(st, child.value))
  }

  // ---------- What every line keeps ----------

  predicate IsChild(inv: Inv, g: string, c: string) { g in inv.groups && c in inv.groups[g].children }
  predicate IsParent(inv: Inv, c: string, g: string) { c in inv.groups && g in inv.groups[c].parents }
  predicate HasHost(inv: Inv, g: string, h: string) { g in inv.groups && h in inv.groups[g].hosts }
  predicate InGroup(inv: Inv, h: string, g: string) { h in inv.hosts && g in inv.hosts[h].groups }

  /** Every name that occurs anywhere is registered. */
  ghost predicate Registered(inv: Inv) {
    && ALL in inv.groups
    && (forall g, c :: IsChild(inv, g, c) ==> c in inv.groups)
    && (forall c, g :: IsParent(inv, c, g) ==> g in inv.groups)
    && (forall g, h :: HasHost(inv, g, h) ==> h in inv.hosts)
    && (forall h, g :: InGroup(inv, h, g) ==> g in inv.groups)
  }

  ghost predicate FamilySymmetric(inv: Inv) {
    forall g, c :: IsChild(inv, g, c) <==> IsParent(inv, c, g)
  }

  ghost predicate MembersSymmetric(inv: Inv, except: set<string>) {
    forall g, h :: g !in except ==> (HasHost(inv, g, h) <==> InGroup(inv, h, g))
  }

  ghost predicate HostsPlaced(inv: Inv) {
    forall h <- inv.hosts :: exists g :: HasHost(inv, g, h)
  }

  ghost predicate WellBuilt(inv: Inv) {
    Registered(inv) && FamilySymmetric(inv) && MembersSymmetric(inv, {}) && HostsPlaced(inv)
  }

  /**
   The lists of `inv'` are those of `inv` with the given (parent, child) and (group, host) pairs added on both
   sides.
   */
  ghost predicate Grown(inv: Inv, inv': Inv, families: set<(string, string)>, members: set<(string, string)>) {
    && inv.groups.Keys <= inv'.groups.Keys
    && inv.hosts.Keys <= inv'.hosts.Keys
    && (forall g, c :: IsChild(inv', g, c) <==> IsChild(inv, g, c) || (g, c) in families)
    && (forall g, c :: IsParent(inv', c, g) <==> IsParent(inv, c, g) || (g, c) in families)
    && (forall g, h :: HasHost(inv', g, h) <==> HasHost(inv, g, h) || (g, h) in members)
    && (forall g, h :: InGroup(inv', h, g) <==> InGroup(inv, h, g) || (g, h) in members)
  }

  lemma GrownKeeps(inv: Inv, inv': Inv, families: set<(string, string)>, members: set<(string, string)>)
    requires WellBuilt(inv) && Grown(inv, inv', families, members)
    requires forall p <- families :: p.0 in inv'.groups && p.1 in inv'.groups
    requires forall p <- members :: p.0 in inv'.groups && p.1 in inv'.hosts
    requires forall h <- inv'.hosts :: h in inv.hosts || exists g :: (g, h) in members
    ensures WellBuilt(inv')
  {
    hide IsChild, IsParent, HasHost, InGroup;
    forall h <- inv'.hosts ensures exists g :: HasHost(inv', g, h) {
      if h in inv.hosts {
        var g :| HasHost(inv, g, h);
        assert HasHost(inv', g, h);
      } else {
        var g :| (g, h) in members;
        assert HasHost(inv', g, h);
      }
    }
  }

  lemma WithGroupKeeps(inv: Inv, name: string)
    requires WellBuilt(inv)
    ensures WellBuilt(WithGroup(inv, name))
  {
    assert Grown(inv, WithGroup(inv, name), {}, {}) by { hide WellBuilt; }
    GrownKeeps(inv, WithGroup(inv, name), {}, {});
  }

  lemma AddHostGrows(st: ParseState, name: string, vars: Vars)
    requires st.group in st.inv.groups
    ensures Grown(st.inv, AddHost(st, name, vars).inv, {}, {(st.group, name)})
  {
    var inv, inv' := st.inv, AddHost(st, name, vars).inv;
    forall g, h
      ensures IsChild(inv', g, h) <==> IsChild(inv, g, h)
      ensures IsParent(inv', h, g) <==> IsParent(inv, h, g)
      ensures HasHost(inv', g, h) <==> HasHost(inv, g, h) || (g, h) in {(st.group, name)}
      ensures InGroup(inv', h, g) <==> InGroup(inv, h, g) || (g, h) in {(st.group, name)}
    {
    }
  }

  lemma AddHostKeeps(st: ParseState, name: string, vars: Vars)
    requires WellBuilt(st.inv) && st.group in st.inv.groups
    ensures WellBuilt(AddHost(st, name, vars).inv)
  {
    hide WellBuilt, Grown;
    AddHostGrows(st, name, vars);
    GrownKeeps(st.inv, AddHost(st, name, vars).inv, {}, {(st.group, name)});
  }

  lemma AddChildGrows(st: ParseState, name: string)
    requires st.group in st.inv.groups
    ensures Grown(st.inv, AddChild(st, name).inv, {(st.group, name)}, {})
  {
    var inv, inv' := st.inv, AddChild(st, name).inv;
    forall g, c
      ensures IsChild(inv', g, c) <==> IsChild(inv, g, c) || (g, c) in {(st.group, name)}
      ensures IsParent(inv', c, g) <==> IsParent(inv, c, g) || (g, c) in {(st.group, name)}
      ensures HasHost(inv', g, c) <==> HasHost(inv, g, c)
    {
    }
  }

  lemma AddChildKeeps(st: ParseState, name: string)
    requires WellBuilt(st.inv) && st.group in st.inv.groups
    ensures WellBuilt(AddChild(st, name).inv)
  {
    var inv' := AddChild(st, name).inv;
    AddChildGrows(st, name);
    GrownKeeps(st.inv, inv', {(st.group, name)}, {});
  }

  /** Variables and the initialized flag are no part of the graph. */
  lemma RelabelKeeps(inv: Inv, inv': Inv)
    requires WellBuilt(inv) && inv'.hosts == inv.hosts && inv'.groups.Keys == inv.groups.Keys
    requires forall g <- inv.groups :: inv'.groups[g].children == inv.groups[g].children &&
               inv'.groups[g].parents == inv.groups[g].parents && inv'.groups[g].hosts == inv.groups[g].hosts
    ensures WellBuilt(inv')
  {
    assert Grown(inv, inv', {}, {}) by { hide WellBuilt; }
    GrownKeeps(inv, inv', {}, {});
  }

  /** Parent and child lists, and group and host lists, mirror each other after every line. */
  lemma HandleLineKeeps(st: ParseState, line: Line)
    requires WellBuilt(st.inv) && st.group in st.inv.groups
    ensures var r := HandleLine(st, line); r.Some? ==> WellBuilt(r.value.inv) && r.value.group in r.value.inv.groups
  {
    hide WellBuilt;
    match line
    case Blank =>
    case SectionLine(name, typ) =>
      WithGroupKeeps(st.inv, name);
      if typ != VarSection { RelabelKeeps(WithGroup(st.inv, name), Initialize(WithGroup(st.inv, name), name)); }
    case DataLine(host, assignment, child) =>
      match st.typ
      case HostSection => if host.Some? { AddHostKeeps(st, host.value.0, host.value.1); }
      case VarSection =>
        if assignment.Some? { RelabelKeeps(st.inv, AddVar(st, assignment.value.0, assignment.value.1).inv); }
      case ChildSection => if child.Some? { AddChildKeeps(st, child.value); }
  }

  /** A whole file. */
  function ParseLines(lines: seq<Line>): (r: Option<ParseState>)
    ensures r.Some? ==> r.value.group in r.value.inv.groups
  {
    if lines == [] then Some(START_STATE)
    else
      var before := ParseLines(lines[..|lines| - 1]);
      if before.None? then None else HandleLine(before.value, lines[|lines| - 1])
  }

  lemma {:induction false} ParseLinesKeep(lines: seq<Line>)
    ensures ParseLines(lines).Some? ==> WellBuilt(ParseLines(lines).value.inv)
  {
    if lines != [] {
      var before := ParseLines(lines[..|lines| - 1]);
      ParseLinesKeep(lines[..|lines| - 1]);
      if before.Some? { HandleLineKeeps(before.value, lines[|lines| - 1]); }
    }
  }

  // ---------- Normalisation ----------

  predicate NoDuplicates(names: seq<string>) {
    forall i, j | 0 <= i < j < |names| :: names[i] != names[j]
  }

  /** The same names, each once, in any order: what a pass through a map leaves. */
  ghost predicate Deduplicated(names: seq<string>, names': seq<string>) {
    NoDuplicates(names') && forall x :: x in names <==> x in names'
  }

  function RemoveFirst(names: seq<string>, name: string): seq<string> {
    if names == [] then []
    else if names[0] == name then names[1..]
    else [names[0]] + RemoveFirst(names[1..], name)
  }

  /** One removal is enough when there are no duplicates. */
  lemma {:induction false} RemoveFirstRemovesAll(names: seq<string>, name: string, x: string)
    requires NoDuplicates(names)
    ensures x in RemoveFirst(names, name) <==> x in names && x != name
  {
    if names != [] {
      assert names == [names[0]] + names[1..];
      if names[0] != name { RemoveFirstRemovesAll(names[1..], name, x); }
    }
  }

  lemma {:induction false} RemoveFirstNoDuplicates(names: seq<string>, name: string)
    requires NoDuplicates(names)
    ensures NoDuplicates(RemoveFirst(names, name))
  {
    if names != [] && names[0] != name {
      var rest := RemoveFirst(names[1..], name);
      RemoveFirstNoDuplicates(names[1..], name);
      RemoveFirstRemovesAll(names[1..], name, names[0]);
      forall i | 0 <= i < |rest| ensures rest[i] != names[0] { assert rest[i] in rest; }
    }
  }

  lemma {:induction false} RemoveFirstAt(names: seq<string>, name: string, i: nat)
    requires i <= |names| && (forall k | 0 <= k < i :: names[k] != name) && (i < |names| ==> names[i] == name)
    ensures RemoveFirst(names, name) == if i < |names| then names[..i] + names[i + 1..] else names
  {
    if i > 0 {
      var rest := names[1..];
      RemoveFirstAt(rest, name, i - 1);
      if i < |names| {
        assert [names[0]] + (rest[..i - 1] + rest[i..]) == names[..i] + names[i + 1..];
      } else {
        assert [names[0]] + rest == names;
      }
    }
  }

  function AddUngrouped(inv: Inv): Inv {
    var u := Initialize(WithGroup(inv, UNGROUPED), UNGROUPED);
    var a := WithGroup(u, ALL);
    var ungrouped := a.groups[UNGROUPED];
    var moved := SetGroup(a, UNGROUPED, ungrouped.(hosts := ungrouped.hosts + a.groups[ALL].hosts));
    SetGroup(moved, ALL, moved.groups[ALL].(hosts := []))
  }

  predicate Orphan(inv: Inv, g: string) {
    g in inv.groups && g != ALL && inv.groups[g].parents == []
  }

  /** Every orphan is hung under `all`, in any order. */
  ghost predicate HungUnderAll(inv: Inv, inv': Inv, order: seq<string>) {
    && ALL in inv.groups
    && inv'.hosts == inv.hosts
    && inv'.groups.Keys == inv.groups.Keys
    && NoDuplicates(order)
    && (forall g :: g in order <==> Orphan(inv, g))
    && (forall g <- inv.groups :: inv'.groups[g] ==
         if g == ALL then inv.groups[g].(children := inv.groups[g].children + order)
         else if Orphan(inv, g) then inv.groups[g].(parents := [ALL])
         else inv.groups[g])
  }

  ghost predicate Simplified(inv: Inv, inv': Inv) {
    && inv'.hosts.Keys == inv.hosts.Keys
    && inv'.groups.Keys == inv.groups.Keys
    && (forall h <- inv.hosts :: inv'.hosts[h].vars == inv.hosts[h].vars &&
         Deduplicated(inv.hosts[h].groups, inv'.hosts[h].groups))
    && (forall g <- inv.groups :: inv'.groups[g] == inv.groups[g].(parents := inv'.groups[g].parents) &&
         Deduplicated(inv.groups[g].parents, inv'.groups[g].parents))
  }

  function WithoutAll(inv: Inv): Inv {
    inv.(hosts := map h | h in inv.hosts :: inv.hosts[h].(groups := RemoveFirst(inv.hosts[h].groups, ALL)))
  }

  /** What normalisation may turn `inv` into. */
  ghost predicate Normalised(inv: Inv, inv': Inv) {
    exists hung, order, simple ::
      HungUnderAll(AddUngrouped(inv), hung, order) && Simplified(hung, simple) && inv' == WithoutAll(simple)
  }

  /** The shape of a normalised inventory, before it is validated. */
  ghost predicate NormalForm(inv: Inv) {
    && Registered(inv)
    && FamilySymmetric(inv)
    && MembersSymmetric(inv, {ALL, UNGROUPED})
    && HostsPlaced(inv)
    && (forall h :: !InGroup(inv, h, ALL))
    && (forall g <- inv.groups :: g != ALL ==> inv.groups[g].parents != [])
    && (forall g <- inv.groups :: NoDuplicates(inv.groups[g].parents))
    && (forall h <- inv.hosts :: NoDuplicates(inv.hosts[h].groups))
  }

  lemma AddUngroupedShape(inv: Inv)
    requires ALL in inv.groups
    ensures var inv' := AddUngrouped(inv);
            && inv'.hosts == inv.hosts && inv'.groups.Keys == inv.groups.Keys + {UNGROUPED}
            && (forall g, c :: IsChild(inv', g, c) <==> IsChild(inv, g, c))
            && (forall g, c :: IsParent(inv', c, g) <==> IsParent(inv, c, g))
            && (forall g, h :: HasHost(inv', g, h) <==>
                 if g == ALL then false
                 else if g == UNGROUPED then HasHost(inv, UNGROUPED, h) || HasHost(inv, ALL, h)
                 else HasHost(inv, g, h))
  {}

  lemma HungShape(inv: Inv, inv': Inv, order: seq<string>)
    requires HungUnderAll(inv, inv', order)
    ensures forall g, c :: IsChild(inv', g, c) <==> IsChild(inv, g, c) || (g == ALL && Orphan(inv, c))
    ensures forall g, c :: IsParent(inv', c, g) <==> IsParent(inv, c, g) || (g == ALL && Orphan(inv, c))
    ensures forall g, h :: HasHost(inv', g, h) <==> HasHost(inv, g, h)
    ensures forall g <- inv'.groups :: g != ALL ==> inv'.groups[g].parents != []
  {}

  lemma SimplifiedShape(inv: Inv, inv': Inv)
    requires Simplified(inv, inv')
    ensures forall g, c :: IsChild(inv', g, c) <==> IsChild(inv, g, c)
    ensures forall g, c :: IsParent(inv', c, g) <==> IsParent(inv, c, g)
    ensures forall g, h :: HasHost(inv', g, h) <==> HasHost(inv, g, h)
    ensures forall g, h :: InGroup(inv', h, g) <==> InGroup(inv, h, g)
    ensures forall g <- inv'.groups :: NoDuplicates(inv'.groups[g].parents)
    ensures forall g <- inv'.groups :: inv.groups[g].parents != [] ==> inv'.groups[g].parents != []
    ensures forall h <- inv'.hosts :: NoDuplicates(inv'.hosts[h].groups)
  {
    forall g <- inv'.groups | inv.groups[g].parents != [] ensures inv'.groups[g].parents != [] {
      assert inv.groups[g].parents[0] in inv'.groups[g].parents;
    }
  }

  lemma WithoutAllShape(inv: Inv)
    requires forall h <- inv.hosts :: NoDuplicates(inv.hosts[h].groups)
    ensures forall g, h :: InGroup(WithoutAll(inv), h, g) <==> InGroup(inv, h, g) && g != ALL
    ensures forall h <- WithoutAll(inv).hosts :: NoDuplicates(WithoutAll(inv).hosts[h].groups)
  {
    forall h <- inv.hosts ensures NoDuplicates(RemoveFirst(inv.hosts[h].groups, ALL)) {
      RemoveFirstNoDuplicates(inv.hosts[h].groups, ALL);
    }
    forall g, h ensures InGroup(WithoutAll(inv), h, g) <==> InGroup(inv, h, g) && g != ALL {
      if h in inv.hosts { RemoveFirstRemovesAll(inv.hosts[h].groups, ALL, g); }
    }
  }

  /** The mirrored lists during normalisation: `all` and `ungrouped` no longer match their hosts. */
  ghost predicate Mirrored(inv: Inv) {
    Registered(inv) && FamilySymmetric(inv) && MembersSymmetric(inv, {ALL, UNGROUPED}) && HostsPlaced(inv)
  }

  lemma AddUngroupedMirrored(inv: Inv)
    requires WellBuilt(inv)
    ensures Mirrored(AddUngrouped(inv))
  {
    var inv' := AddUngrouped(inv);
    AddUngroupedShape(inv);
    hide IsChild, IsParent, HasHost, InGroup, AddUngrouped;
    assert forall h, g :: InGroup(inv', h, g) <==> InGroup(inv, h, g) by { SameHosts(inv, inv'); }
    forall h <- inv'.hosts ensures exists g :: HasHost(inv', g, h) {
      var g :| HasHost(inv, g, h);
      assert HasHost(inv', if g == ALL then UNGROUPED else g, h);
    }
  }

  lemma SameHosts(inv: Inv, inv': Inv)
    requires inv.hosts == inv'.hosts
    ensures forall h, g :: InGroup(inv', h, g) <==> InGroup(inv, h, g)
  {}

  lemma HungMirrored(inv: Inv, inv': Inv, order: seq<string>)
    requires Mirrored(inv) && HungUnderAll(inv, inv', order)
    ensures Mirrored(inv')
  {
    HungShape(inv, inv', order);
    SameHosts(inv, inv');
    assert forall c :: Orphan(inv, c) ==> c in inv.groups;
    hide IsChild, IsParent, HasHost, InGroup, Orphan, NoDuplicates;
    PlacedKept(inv, inv');
  }

  lemma SimplifiedMirrored(inv: Inv, inv': Inv)
    requires Mirrored(inv) && Simplified(inv, inv')
    ensures Mirrored(inv')
  {
    SimplifiedShape(inv, inv');
    hide IsChild, IsParent, HasHost, InGroup, Deduplicated;
    PlacedKept(inv, inv');
  }

  lemma PlacedKept(inv: Inv, inv': Inv)
    requires HostsPlaced(inv) && inv'.hosts.Keys == inv.hosts.Keys
    requires forall g, h :: HasHost(inv', g, h) <==> HasHost(inv, g, h)
    ensures HostsPlaced(inv')
  {
    hide HasHost;
    forall h <- inv'.hosts ensures exists g :: HasHost(inv', g, h) {
      var g :| HasHost(inv, g, h);
      assert HasHost(inv', g, h);
    }
  }

  /** Normalisation keeps the mirrored lists, except that `all` and `ungrouped` no longer match their hosts. */
  lemma NormalisedHasForm(inv: Inv, inv': Inv)
    requires WellBuilt(inv) && Normalised(inv, inv')
    ensures NormalForm(inv')
  {
    var hung, order, simple :|
      HungUnderAll(AddUngrouped(inv), hung, order) && Simplified(hung, simple) && inv' == WithoutAll(simple);
    AddUngroupedMirrored(inv);
    HungMirrored(AddUngrouped(inv), hung, order);
    HungShape(AddUngrouped(inv), hung, order);
    SimplifiedMirrored(hung, simple);
    SimplifiedShape(hung, simple);
    WithoutAllShape(simple);
    WithoutAllForm(simple);
  }

  lemma WithoutAllForm(inv: Inv)
    requires Mirrored(inv)
    requires forall g, h :: InGroup(WithoutAll(inv), h, g) <==> InGroup(inv, h, g) && g != ALL
    requires forall g <- inv.groups :: (g != ALL ==> inv.groups[g].parents != []) && NoDuplicates(inv.groups[g].parents)
    requires forall h <- WithoutAll(inv).hosts :: NoDuplicates(WithoutAll(inv).hosts[h].groups)
    ensures NormalForm(WithoutAll(inv))
  {
    var inv' := WithoutAll(inv);
    assert forall g, h :: HasHost(inv', g, h) <==> HasHost(inv, g, h);
    assert forall g, c :: IsChild(inv', g, c) <==> IsChild(inv, g, c);
    assert forall g, c :: IsParent(inv', c, g) <==> IsParent(inv, c, g);
    hide IsChild, IsParent, HasHost, InGroup, NoDuplicates;
    PlacedKept(inv, inv');
  }

  // ---------- Validation ----------

  ghost predicate AllInitialized(inv: Inv) {
    forall g <- inv.groups :: inv.groups[g].initialized
  }

  ghost predicate Validated(inv: Inv) {
    NormalForm(inv) && AllInitialized(inv) && !Cyclic(Parents(inv))
  }

  lemma FamilyGraph(inv: Inv)
    requires Registered(inv) && FamilySymmetric(inv)
    ensures Closed(Parents(inv)) && Closed(Children(inv)) && Inverse(Parents(inv), Children(inv))
    ensures Cyclic(Parents(inv)) <==> Cyclic(Children(inv))
  {
    var up, down := Parents(inv), Children(inv);
    forall g <- up, p <- up[g] ensures p in up { assert IsParent(inv, g, p); }
    forall g <- down, c <- down[g] ensures c in down { assert IsChild(inv, g, c); }
    forall n <- up, m <- up ensures m in up[n] <==> n in down[m] {
      assert IsChild(inv, m, n) <==> IsParent(inv, n, m);
    }
    CyclicInverse(up, down);
  }

  /** `all` is the only group without parents. */
  lemma AllIsTheOnlyRoot(inv: Inv, g: string)
    requires Validated(inv) && g in inv.groups
    ensures inv.groups[g].parents == [] <==> g == ALL
  {
    FamilyGraph(inv);
    var sink := SinkExists(Parents(inv), g);
  }

  /** Every other group is a descendant of `all`. */
  lemma EveryGroupBelowAll(inv: Inv, g: string)
    requires Validated(inv) && g in inv.groups && g != ALL
    ensures g in Below(Children(inv), ALL)
  {
    FamilyGraph(inv);
    TopReached(Parents(inv), ALL, g);
    ReachInverse(Parents(inv), Children(inv), g, ALL);
  }

  /** The hosts of a group and of everything below it. */
  ghost predicate BelongsTo(inv: Inv, g: string, h: string) {
    exists x :: (x == g || x in Below(Children(inv), g)) && HasHost(inv, x, h)
  }

  ghost function HostsOf(inv: Inv, g: string): set<string> {
    set h | h in inv.hosts && BelongsTo(inv, g, h)
  }

  /** A group's hosts are its own and those of its children: the recursion `GetHosts` runs. */
  lemma HostsOfSplit(inv: Inv, g: string, h: string)
    requires Closed(Children(inv)) && Registered(inv) && g in inv.groups
    ensures h in HostsOf(inv, g) <==>
            h in inv.groups[g].hosts || exists c :: c in inv.groups[g].children && h in HostsOf(inv, c)
  {
    var down := Children(inv);
    if h in HostsOf(inv, g) {
      var x :| (x == g || x in Below(down, g)) && HasHost(inv, x, h);
      if x != g {
        BelowSplit(down, g, x);
        var c :| c in down[g] && (x == c || x in Below(down, c));
        assert BelongsTo(inv, c, h);
      }
    }
    if h in inv.groups[g].hosts { assert HasHost(inv, g, h); assert BelongsTo(inv, g, h); }
    if c :| c in inv.groups[g].children && h in HostsOf(inv, c) {
      var x :| (x == c || x in Below(down, c)) && HasHost(inv, x, h);
      BelowSplit(down, g, x);
      assert BelongsTo(inv, g, h);
    }
  }

  /** The walk from `all` finds every host: the shortcut for the pattern `all` agrees with it. */
  lemma AllReachesEveryHost(inv: Inv)
    requires Validated(inv)
    ensures HostsOf(inv, ALL) == inv.hosts.Keys
  {
    forall h <- inv.hosts ensures h in HostsOf(inv, ALL) {
      var g :| HasHost(inv, g, h);
      if g != ALL { EveryGroupBelowAll(inv, g); }
      assert BelongsTo(inv, ALL, h);
    }
  }

  // ---------- When validation rejects a file ----------

  lemma WalkMapped(e: Edges, f: Edges, p: seq<string>)
    requires Walk(e, p)
    requires forall i | 0 <= i < |p| :: p[i] in f
    requires forall i | 0 < i < |p| :: p[i] in f[p[i - 1]]
    ensures Walk(f, p)
  {}

  /** The parent relation after normalisation. */
  ghost predicate HangsUnderAll(inv: Inv, inv': Inv) {
    && inv'.groups.Keys == inv.groups.Keys + {UNGROUPED}
    && (forall c, g :: IsParent(inv', c, g) <==> IsParent(inv, c, g) || (g == ALL && Orphan(AddUngrouped(inv), c)))
  }

  lemma NormalisedParents(inv: Inv, inv': Inv)
    requires ALL in inv.groups && Normalised(inv, inv')
    ensures HangsUnderAll(inv, inv')
  {
    var hung, order, simple :|
      HungUnderAll(AddUngrouped(inv), hung, order) && Simplified(hung, simple) && inv' == WithoutAll(simple);
    AddUngroupedShape(inv);
    HungShape(AddUngrouped(inv), hung, order);
    SimplifiedShape(hung, simple);
    assert forall c, g :: IsParent(inv', c, g) <==> IsParent(simple, c, g);
  }

  /** A parsed cycle survives normalisation. */
  lemma CycleSurvives(inv: Inv, inv': Inv)
    requires HangsUnderAll(inv, inv') && Cyclic(Parents(inv))
    ensures Cyclic(Parents(inv'))
  {
    var e, f := Parents(inv), Parents(inv');
    var n :| Reach(e, n, n);
    var p :| WalkBetween(e, p, n, n);
    forall i | 0 < i < |p| ensures p[i] in f[p[i - 1]] {
      assert IsParent(inv, p[i - 1], p[i]);
      assert IsParent(inv', p[i - 1], p[i]);
    }
    WalkMapped(e, f, p);
    assert WalkBetween(f, p, n, n);
    assert Reach(f, n, n);
  }

  /** When `all` has no parents, hanging groups under it closes no cycle. */
  lemma NoNewCycle(inv: Inv, inv': Inv)
    requires HangsUnderAll(inv, inv') && ALL in inv.groups && inv.groups[ALL].parents == [] && Cyclic(Parents(inv'))
    ensures Cyclic(Parents(inv))
  {
    var e, f := Parents(inv), Parents(inv');
    var n :| Reach(f, n, n);
    var p :| WalkBetween(f, p, n, n);
    assert forall g :: !IsParent(inv', ALL, g);
    forall i | 0 <= i < |p| - 1 ensures p[i] != ALL {
      assert p[i + 1] in f[p[i]];
      assert IsParent(inv', p[i], p[i + 1]);
    }
    forall i | 0 < i < |p| ensures IsParent(inv, p[i - 1], p[i]) {
      assert p[i] in f[p[i - 1]];
      assert IsParent(inv', p[i - 1], p[i]);
      assert p[i] != ALL by { if i == |p| - 1 { assert p[i] == p[0]; } }
    }
    forall i | 0 <= i < |p| ensures p[i] in e {
      assert IsParent(inv, p[0], p[1]);
      if i < |p| - 1 { assert IsParent(inv, p[i], p[i + 1]); }
    }
    forall i | 0 < i < |p| ensures p[i] in e[p[i - 1]] {
      assert IsParent(inv, p[i - 1], p[i]);
    }
    WalkMapped(f, e, p);
    assert WalkBetween(e, p, n, n);
    assert Reach(e, n, n);
  }

  /** Validation finds a cycle exactly when the parsed groups had one, or `all` was listed as somebody's child. */
  lemma CycleOrigin(inv: Inv, inv': Inv)
    requires WellBuilt(inv) && Normalised(inv, inv')
    ensures Cyclic(Parents(inv')) <==> Cyclic(Parents(inv)) || inv.groups[ALL].parents != []
  {
    NormalisedParents(inv, inv');
    if Cyclic(Parents(inv)) {
      CycleSurvives(inv, inv');
    } else if inv.groups[ALL].parents == [] {
      if Cyclic(Parents(inv')) { NoNewCycle(inv, inv'); }
    } else if !Cyclic(Parents(inv')) {
      NormalisedHasForm(inv, inv');
      FamilyGraph(inv');
      assert IsParent(inv, ALL, inv.groups[ALL].parents[0]);
      assert IsParent(inv', ALL, inv.groups[ALL].parents[0]);
      var sink := SinkExists(Parents(inv'), ALL);
    }
  }

  /** Normalisation initializes `ungrouped` and no other group. */
  lemma InitializedOrigin(inv: Inv, inv': Inv)
    requires ALL in inv.groups && Normalised(inv, inv')
    ensures AllInitialized(inv') <==> forall g <- inv.groups :: inv.groups[g].initialized || g == UNGROUPED
  {
    var hung, order, simple :|
      HungUnderAll(AddUngrouped(inv), hung, order) && Simplified(hung, simple) && inv' == WithoutAll(simple);
    FlagsKept(AddUngrouped(inv), hung, order, simple);
    FlagsAdded(inv);
    hide HungUnderAll, Simplified, AddUngrouped;
    assert inv'.groups == simple.groups;
  }

  lemma FlagsAdded(inv: Inv)
    requires ALL in inv.groups
    ensures var inv' := AddUngrouped(inv);
            && inv'.groups.Keys == inv.groups.Keys + {UNGROUPED}
            && forall g <- inv'.groups :: inv'.groups[g].initialized == (g == UNGROUPED || inv.groups[g].initialized)
  {}

  lemma FlagsKept(inv: Inv, hung: Inv, order: seq<string>, simple: Inv)
    requires HungUnderAll(inv, hung, order) && Simplified(hung, simple)
    ensures simple.groups.Keys == inv.groups.Keys
    ensures forall g <- inv.groups :: simple.groups[g].initialized == inv.groups[g].initialized
  {}

  /** A parsed file that passes validation: nothing but mentioned groups, no cycle, and `all` below nobody. */
  ghost predicate Acceptable(inv: Inv)
    requires ALL in inv.groups
  {
    && (forall g <- inv.groups :: inv.groups[g].initialized || g == UNGROUPED)
    && !Cyclic(Parents(inv))
    && inv.groups[ALL].parents == []
  }

  /** Validation accepts a normalised file exactly when the parsed one was acceptable. */
  lemma AcceptedExactly(inv: Inv, inv': Inv)
    requires WellBuilt(inv) && Normalised(inv, inv')
    ensures Acceptable(inv) <==> AllInitialized(inv') && !Cyclic(Parents(inv'))
    ensures Acceptable(inv) ==> Validated(inv')
  {
    hide WellBuilt, Normalised, AllInitialized, NormalForm, Cyclic;
    assert ALL in inv.groups by { AllKnown(inv); }
    InitializedOrigin(inv, inv');
    CycleOrigin(inv, inv');
    NormalisedHasForm(inv, inv');
  }

  lemma AllKnown(inv: Inv)
    requires WellBuilt(inv)
    ensures ALL in inv.groups
  {}

  // ---------- Variables ----------

  ghost predicate Acyclic(inv: Inv) { Closed(Parents(inv)) && !Cyclic(Parents(inv)) }

  /** What `AllVars` returns for a group: its own variables over those of its parents, later parents first. */
  ghost function GroupVars(inv: Inv, g: string): Vars
    requires Acyclic(inv) && g in inv.groups
    decreases Below(Parents(inv), g), |inv.groups[g].parents| + 1
  {
    ParentVars(inv, g, |inv.groups[g].parents|) + inv.groups[g].vars
  }

  ghost function ParentVars(inv: Inv, g: string, n: nat): Vars
    requires Acyclic(inv) && g in inv.groups && n <= |inv.groups[g].parents|
    decreases Below(Parents(inv), g), n
  {
    if n == 0 then map[]
    else
      var p := inv.groups[g].parents[n - 1];
      BelowShrinks(Parents(inv), g, p);
      ParentVars(inv, g, n - 1) + GroupVars(inv, p)
  }

  ghost predicate SetAbove(inv: Inv, g: string, k: string) {
    exists x :: x in inv.groups && (x == g || x in Below(Parents(inv), g)) && k in inv.groups[x].vars
  }

  /** Exactly the keys set by the group or by an ancestor. */
  lemma {:induction false} GroupVarsKeys(inv: Inv, g: string, k: string)
    requires Acyclic(inv) && g in inv.groups
    ensures k in GroupVars(inv, g) <==> SetAbove(inv, g, k)
    decreases Below(Parents(inv), g), |inv.groups[g].parents| + 1
  {
    var up := Parents(inv);
    ParentVarsKeys(inv, g, |inv.groups[g].parents|, k);
    if SetAbove(inv, g, k) {
      var x :| x in inv.groups && (x == g || x in Below(up, g)) && k in inv.groups[x].vars;
      if x != g {
        BelowSplit(up, g, x);
        var p :| p in up[g] && (x == p || x in Below(up, p));
        assert SetAbove(inv, p, k);
      }
    }
    if p :| p in up[g] && SetAbove(inv, p, k) {
      var x :| x in inv.groups && (x == p || x in Below(up, p)) && k in inv.groups[x].vars;
      BelowSplit(up, g, x);
    }
  }

  lemma {:induction false} ParentVarsKeys(inv: Inv, g: string, n: nat, k: string)
    requires Acyclic(inv) && g in inv.groups && n <= |inv.groups[g].parents|
    ensures k in ParentVars(inv, g, n) <==> exists p :: p in inv.groups[g].parents[..n] && SetAbove(inv, p, k)
    decreases Below(Parents(inv), g), n
  {
    if n > 0 {
      var p := inv.groups[g].parents[n - 1];
      BelowShrinks(Parents(inv), g, p);
      ParentVarsKeys(inv, g, n - 1, k);
      GroupVarsKeys(inv, p, k);
      assert inv.groups[g].parents[..n] == inv.groups[g].parents[..n - 1] + [p];
    }
  }

  /**
   The value comes from a group that sets the variable, and no group between here and there sets it:
   a variable of the group itself always wins, and an ancestor never overrides a descendant on its own line.
   */
  lemma {:induction false} GroupVarsSource(inv: Inv, g: string, k: string) returns (p: seq<string>)
    requires Acyclic(inv) && g in inv.groups && k in GroupVars(inv, g)
    ensures Walk(Parents(inv), p) && p[0] == g
    ensures var x := p[|p| - 1]; k in inv.groups[x].vars && GroupVars(inv, g)[k] == inv.groups[x].vars[k]
    ensures forall i | 0 <= i < |p| - 1 :: k !in inv.groups[p[i]].vars
    decreases Below(Parents(inv), g), |inv.groups[g].parents| + 1
  {
    if k in inv.groups[g].vars { return [g]; }
    var rest := ParentVarsSource(inv, g, |inv.groups[g].parents|, k);
    p := [g] + rest;
    forall i | 0 <= i < |p| - 1 ensures k !in inv.groups[p[i]].vars {
      if i > 0 { assert p[i] == rest[i - 1]; }
    }
  }

  lemma {:induction false} ParentVarsSource(inv: Inv, g: string, n: nat, k: string) returns (p: seq<string>)
    requires Acyclic(inv) && g in inv.groups && n <= |inv.groups[g].parents| && k in ParentVars(inv, g, n)
    ensures Walk(Parents(inv), p) && p[0] in inv.groups[g].parents
    ensures var x := p[|p| - 1]; k in inv.groups[x].vars && ParentVars(inv, g, n)[k] == inv.groups[x].vars[k]
    ensures forall i | 0 <= i < |p| - 1 :: k !in inv.groups[p[i]].vars
    decreases Below(Parents(inv), g), n
  {
    var parent := inv.groups[g].parents[n - 1];
    BelowShrinks(Parents(inv), g, parent);
    if k in GroupVars(inv, parent) {
      p := GroupVarsSource(inv, parent, k);
    } else {
      p := ParentVarsSource(inv, g, n - 1, k);
    }
  }

  /** What `AllVars` returns for a host: its own variables over those of its groups. */
  ghost function HostVars(inv: Inv, h: string): Vars
    requires Acyclic(inv) && Registered(inv) && h in inv.hosts
  {
    HostGroupVars(inv, h, |inv.hosts[h].groups|) + inv.hosts[h].vars
  }

  ghost function HostGroupVars(inv: Inv, h: string, n: nat): Vars
    requires Acyclic(inv) && Registered(inv) && h in inv.hosts && n <= |inv.hosts[h].groups|
  {
    if n == 0 then map[]
    else
      assert InGroup(inv, h, inv.hosts[h].groups[n - 1]);
      HostGroupVars(inv, h, n - 1) + GroupVars(inv, inv.hosts[h].groups[n - 1])
  }

  /** Exactly the keys set by the host, by one of its groups, or by an ancestor of one. */
  lemma {:induction false} HostVarsKeys(inv: Inv, h: string, n: nat, k: string)
    requires Acyclic(inv) && Registered(inv) && h in inv.hosts && n <= |inv.hosts[h].groups|
    ensures k in HostGroupVars(inv, h, n) <==> exists g :: g in inv.hosts[h].groups[..n] && SetAbove(inv, g, k)
    decreases n
  {
    hide SetAbove, GroupVars, Acyclic;
    if n > 0 {
      var g := inv.hosts[h].groups[n - 1];
      assert InGroup(inv, h, g);
      HostVarsKeys(inv, h, n - 1, k);
      GroupVarsKeys(inv, g, k);
      assert inv.hosts[h].groups[..n] == inv.hosts[h].groups[..n - 1] + [g];
    }
  }

  /** The group has the variable, from itself or from above. */
  ghost predicate GroupHas(inv: Inv, g: string, k: string)
    requires Acyclic(inv)
  {
    g in inv.groups && k in GroupVars(inv, g)
  }

  /** Of the first `n` groups in a list, number `i` is the last that has the variable. */
  ghost predicate LastToHave(inv: Inv, groups: seq<string>, n: nat, i: nat, k: string)
    requires Acyclic(inv) && i < n <= |groups|
  {
    GroupHas(inv, groups[i], k) && forall j | i < j < n :: !GroupHas(inv, groups[j], k)
  }

  lemma {:induction false} LastParentDecides(inv: Inv, g: string, n: nat, i: nat, k: string)
    requires Acyclic(inv) && g in inv.groups && i < n <= |inv.groups[g].parents|
    requires LastToHave(inv, inv.groups[g].parents, n, i, k)
    ensures k in ParentVars(inv, g, n) && ParentVars(inv, g, n)[k] == GroupVars(inv, inv.groups[g].parents[i])[k]
  {
    hide GroupVars;
    var p := inv.groups[g].parents[n - 1];
    BelowShrinks(Parents(inv), g, p);
    assert ParentVars(inv, g, n) == ParentVars(inv, g, n - 1) + GroupVars(inv, p);
    if i < n - 1 {
      LastParentDecides(inv, g, n - 1, i, k);
      assert !GroupHas(inv, p, k);
    }
  }

  /** What a group has of a variable: its own value, or else that of the last parent that has it. */
  lemma GroupValue(inv: Inv, g: string, i: nat, k: string)
    requires Acyclic(inv) && g in inv.groups
    ensures k in inv.groups[g].vars ==> k in GroupVars(inv, g) && GroupVars(inv, g)[k] == inv.groups[g].vars[k]
    ensures var parents := inv.groups[g].parents;
      k !in inv.groups[g].vars && i < |parents| && LastToHave(inv, parents, |parents|, i, k) ==>
        k in GroupVars(inv, g) && GroupVars(inv, g)[k] == GroupVars(inv, parents[i])[k]
  {
    var parents := inv.groups[g].parents;
    if k !in inv.groups[g].vars && i < |parents| && LastToHave(inv, parents, |parents|, i, k) {
      LastParentDecides(inv, g, |parents|, i, k);
    }
  }

  lemma {:induction false} LastGroupDecides(inv: Inv, h: string, n: nat, i: nat, k: string)
    requires Acyclic(inv) && Registered(inv) && h in inv.hosts && i < n <= |inv.hosts[h].groups|
    requires LastToHave(inv, inv.hosts[h].groups, n, i, k)
    ensures k in HostGroupVars(inv, h, n) && HostGroupVars(inv, h, n)[k] == GroupVars(inv, inv.hosts[h].groups[i])[k]
  {
    hide GroupVars, Acyclic;
    assert InGroup(inv, h, inv.hosts[h].groups[n - 1]);
    if i < n - 1 { LastGroupDecides(inv, h, n - 1, i, k); }
  }

  /** What a host has of a variable: its own value, or else that of the last of its groups that has it. */
  lemma HostValue(inv: Inv, h: string, i: nat, k: string)
    requires Acyclic(inv) && Registered(inv) && h in inv.hosts
    ensures k in inv.hosts[h].vars ==> k in HostVars(inv, h) && HostVars(inv, h)[k] == inv.hosts[h].vars[k]
    ensures var groups := inv.hosts[h].groups;
      k !in inv.hosts[h].vars && i < |groups| && LastToHave(inv, groups, |groups|, i, k) ==>
        k in HostVars(inv, h) && HostVars(inv, h)[k] == GroupVars(inv, groups[i])[k]
  {
    hide GroupVars, Acyclic;
    var groups := inv.hosts[h].groups;
    if k !in inv.hosts[h].vars && i < |groups| && LastToHave(inv, groups, |groups|, i, k) {
      LastGroupDecides(inv, h, |groups|, i, k);
    }
  }
}
