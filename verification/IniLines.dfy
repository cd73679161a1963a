/**
 What a file of lines says, read off the lines alone: which groups, hosts, ties and variables it names. Reading it
 line by line stores exactly that.
 */
module IniLines {
  import opened Options
  import opened InventoryModel

  /** The section that is open after the lines: that of the last section line, or the hosts of `all`. */
  function Open(lines: seq<Line>): (string, SectionType) {
    if lines == [] then (ALL, HostSection)
    else
      var last := lines[|lines| - 1];
      if last.SectionLine? then (last.name, last.typ) else Open(lines[..|lines| - 1])
  }

  /** A line with the section it stands in. */
  datatype Said = Said(group: string, typ: SectionType, line: Line) {
    /** The value that the line gives to a variable of the host: it names the host in a host section. */
    function ForHost(h: string, k: string): Option<string> {
      if typ == HostSection && line.DataLine? && line.host.Some? && line.host.value.0 == h && k in line.host.value.1
      then Some(line.host.value.1[k]) else None
    }

    /** The value that the line gives to a variable of the group: it sets it in a `vars` section of the group. */
    function ForGroup(g: string, k: string): Option<string> {
      if typ == VarSection && group == g && line.DataLine? && line.assignment.Some? && line.assignment.value.0 == k
      then Some(line.assignment.value.1) else None
    }

    /** The line opens a section of the group, or makes the group a child. */
    predicate Mentions(g: string) {
      || (line.SectionLine? && line.name == g)
      || (typ == ChildSection && line.DataLine? && line.child == Some(g))
    }

    /** The line opens a section of the group other than for variables. */
    predicate Initializes(g: string) { line.SectionLine? && line.name == g && line.typ != VarSection }

    predicate Names(h: string) {
      typ == HostSection && line.DataLine? && line.host.Some? && line.host.value.0 == h
    }

    predicate Joins(g: string, h: string) { group == g && Names(h) }

    /** The parser that the section calls for accepts the line; empty and section lines need none. */
    predicate Fits() {
      line.DataLine? ==>
        match typ
        case HostSection => line.host.Some?
        case VarSection => line.assignment.Some?
        case ChildSection => line.child.Some?
    }

    predicate Bears(g: string, c: string) {
      typ == ChildSection && group == g && line.DataLine? && line.child == Some(c)
    }
  }

  function Told(lines: seq<Line>): seq<Said> {
    if lines == [] then []
    else
      var n := |lines| - 1;
      Told(lines[..n]) + [Said(Open(lines[..n]).0, Open(lines[..n]).1, lines[n])]
  }

  /** Every line stands in the section that is open before it. */
  lemma {:induction false} ToldAt(lines: seq<Line>, i: nat)
    requires i < |lines|
    ensures |Told(lines)| == |lines|
    ensures Told(lines)[i] == Said(Open(lines[..i]).0, Open(lines[..i]).1, lines[i])
  {
    hide Open;
    var n := |lines| - 1;
    if n == 0 {
      assert Told(lines[..0]) == [];
    } else {
      ToldAt(lines[..n], if i < n then i else 0);
      if i < n { assert lines[..n][..i] == lines[..i]; }
    }
  }

  /** The last value that the lines give to the variable of a host. */
  function LastForHost(said: seq<Said>, h: string, k: string): Option<string> {
    if said == [] then None
    else
      var n := |said| - 1;
      if said[n].ForHost(h, k).Some? then said[n].ForHost(h, k) else LastForHost(said[..n], h, k)
  }

  function LastForGroup(said: seq<Said>, g: string, k: string): Option<string> {
    if said == [] then None
    else
      var n := |said| - 1;
      if said[n].ForGroup(g, k).Some? then said[n].ForGroup(g, k) else LastForGroup(said[..n], g, k)
  }

  lemma {:induction false} LastForHostExactly(said: seq<Said>, h: string, k: string)
    ensures LastForHost(said, h, k).None? <==> forall i | 0 <= i < |said| :: said[i].ForHost(h, k).None?
    ensures forall i | 0 <= i < |said| && said[i].ForHost(h, k).Some?
      && (forall j | i < j < |said| :: said[j].ForHost(h, k).None?) :: LastForHost(said, h, k) == said[i].ForHost(h, k)
  {
    hide Said.ForHost;
    if said != [] {
      var n := |said| - 1;
      var before := said[..n];
      LastForHostExactly(before, h, k);
      if said[n].ForHost(h, k).None? {
        forall i | 0 <= i < n ensures said[i] == before[i] {}
        forall i | 0 <= i < n && said[i].ForHost(h, k).Some? &&
            (forall j | i < j < |said| :: said[j].ForHost(h, k).None?)
          ensures LastForHost(before, h, k) == said[i].ForHost(h, k)
        {
          assert before[i] == said[i];
          forall j | i < j < n ensures before[j].ForHost(h, k).None? { assert before[j] == said[j]; }
        }
      }
    }
  }

  lemma {:induction false} LastForGroupExactly(said: seq<Said>, g: string, k: string)
    ensures LastForGroup(said, g, k).None? <==> forall i | 0 <= i < |said| :: said[i].ForGroup(g, k).None?
    ensures forall i | 0 <= i < |said| && said[i].ForGroup(g, k).Some?
        && (forall j | i < j < |said| :: said[j].ForGroup(g, k).None?) ::
      LastForGroup(said, g, k) == said[i].ForGroup(g, k)
  {
    hide Said.ForGroup;
    if said != [] {
      var n := |said| - 1;
      var before := said[..n];
      LastForGroupExactly(before, g, k);
      if said[n].ForGroup(g, k).None? {
        forall i | 0 <= i < n ensures said[i] == before[i] {}
        forall i | 0 <= i < n && said[i].ForGroup(g, k).Some? &&
            (forall j | i < j < |said| :: said[j].ForGroup(g, k).None?)
          ensures LastForGroup(before, g, k) == said[i].ForGroup(g, k)
        {
          assert before[i] == said[i];
          forall j | i < j < n ensures before[j].ForGroup(g, k).None? { assert before[j] == said[j]; }
        }
      }
    }
  }

  // ---------- One line more ----------

  /** A file that is accepted is accepted up to its last line, and that line makes the difference. */
  lemma LastLine(lines: seq<Line>)
    requires ParseLines(lines).Some? && lines != []
    ensures var before := ParseLines(lines[..|lines| - 1]);
      before.Some? && ParseLines(lines) == HandleLine(before.value, lines[|lines| - 1])
  {}

  /** The section that is open is the one that the reader holds open. */
  lemma {:induction false} OpenIsOpen(lines: seq<Line>)
    requires ParseLines(lines).Some?
    ensures var st := ParseLines(lines).value; Open(lines) == (st.group, st.typ)
  {
    if lines != [] {
      LastLine(lines);
      OpenIsOpen(lines[..|lines| - 1]);
    }
  }

  /** The last line as it is told, seen from the reader's state before it. */
  lemma ToldLast(lines: seq<Line>)
    requires ParseLines(lines).Some? && lines != []
    ensures var n := |lines| - 1;
      && ParseLines(lines[..n]).Some?
      && var st := ParseLines(lines[..n]).value;
         && st.group in st.inv.groups
         && ParseLines(lines) == HandleLine(st, lines[n])
         && Told(lines) == Told(lines[..n]) + [Said(st.group, st.typ, lines[n])]
  {
    hide HandleLine, Open;
    LastLine(lines);
    OpenIsOpen(lines[..|lines| - 1]);
  }

  /** A file is read to its end exactly when every data line suits the section it stands in. */
  lemma {:induction false} ReadsExactly(lines: seq<Line>)
    ensures ParseLines(lines).Some? <==> forall said <- Told(lines) :: said.Fits()
  {
    if lines != [] {
      var n := |lines| - 1;
      var before := lines[..n];
      ReadsExactly(before);
      var last := Said(Open(before).0, Open(before).1, lines[n]);
      assert Told(lines) == Told(before) + [last];
      if ParseLines(before).Some? {
        OpenIsOpen(before);
        OneMore(ParseLines(before).value, lines[n]);
      }
      hide HandleLine, Open, Said.Fits;
      assert (forall said <- Told(lines) :: said.Fits()) <==>
             (forall said <- Told(before) :: said.Fits()) && last.Fits();
    }
  }

  lemma OneMore(st: ParseState, line: Line)
    requires st.group in st.inv.groups
    ensures HandleLine(st, line).Some? <==> Said(st.group, st.typ, line).Fits()
  {}

  // ---------- Variables ----------

  function HostVarOf(inv: Inv, h: string, k: string): Option<string> {
    if h in inv.hosts && k in inv.hosts[h].vars then Some(inv.hosts[h].vars[k]) else None
  }

  function GroupVarOf(inv: Inv, g: string, k: string): Option<string> {
    if g in inv.groups && k in inv.groups[g].vars then Some(inv.groups[g].vars[k]) else None
  }

  lemma HostVarStep(st: ParseState, line: Line, h: string, k: string)
    requires st.group in st.inv.groups && HandleLine(st, line).Some?
    ensures var given := Said(st.group, st.typ, line).ForHost(h, k);
      HostVarOf(HandleLine(st, line).value.inv, h, k) == if given.Some? then given else HostVarOf(st.inv, h, k)
  {}

  lemma GroupVarStep(st: ParseState, line: Line, g: string, k: string)
    requires st.group in st.inv.groups && HandleLine(st, line).Some?
    ensures var given := Said(st.group, st.typ, line).ForGroup(g, k);
      GroupVarOf(HandleLine(st, line).value.inv, g, k) == if given.Some? then given else GroupVarOf(st.inv, g, k)
  {}

  /**
   A host has a variable exactly when some host line of that name gives it one, in whatever group, and the last
   such line decides the value.
   */
  lemma {:induction false} HostVariables(lines: seq<Line>, h: string, k: string)
    requires ParseLines(lines).Some?
    ensures HostVarOf(ParseLines(lines).value.inv, h, k) == LastForHost(Told(lines), h, k)
    decreases |lines|
  {
    hide HandleLine, Said.ForHost;
    if lines != [] {
      var n := |lines| - 1;
      ToldLast(lines);
      HostVariables(lines[..n], h, k);
      HostVarStep(ParseLines(lines[..n]).value, lines[n], h, k);
      assert Told(lines)[..|Told(lines)| - 1] == Told(lines[..n]);
    }
  }

  /**
   A group has a variable exactly when some line of one of its `vars` sections sets it, and the last such line
   decides the value.
   */
  lemma {:induction false} GroupVariables(lines: seq<Line>, g: string, k: string)
    requires ParseLines(lines).Some?
    ensures GroupVarOf(ParseLines(lines).value.inv, g, k) == LastForGroup(Told(lines), g, k)
    decreases |lines|
  {
    hide HandleLine, Said.ForGroup;
    if lines != [] {
      var n := |lines| - 1;
      ToldLast(lines);
      GroupVariables(lines[..n], g, k);
      GroupVarStep(ParseLines(lines[..n]).value, lines[n], g, k);
      assert Told(lines)[..|Told(lines)| - 1] == Told(lines[..n]);
    }
  }

  // ---------- Groups, hosts and ties ----------

  predicate IsInitialized(inv: Inv, g: string) { g in inv.groups && inv.groups[g].initialized }

  lemma GroupsStep(st: ParseState, line: Line, g: string)
    requires st.group in st.inv.groups && HandleLine(st, line).Some?
    ensures var inv', said := HandleLine(st, line).value.inv, Said(st.group, st.typ, line);
      && (g in inv'.groups <==> g in st.inv.groups || said.Mentions(g))
      && (IsInitialized(inv', g) <==> IsInitialized(st.inv, g) || said.Initializes(g))
  {}

  lemma HostsStep(st: ParseState, line: Line, g: string, h: string)
    requires st.group in st.inv.groups && HandleLine(st, line).Some?
    ensures var inv', said := HandleLine(st, line).value.inv, Said(st.group, st.typ, line);
      && (h in inv'.hosts <==> h in st.inv.hosts || said.Names(h))
      && (HasHost(inv', g, h) <==> HasHost(st.inv, g, h) || said.Joins(g, h))
  {}

  lemma ChildStep(st: ParseState, line: Line, g: string, c: string)
    requires st.group in st.inv.groups && HandleLine(st, line).Some?
    ensures var inv', said := HandleLine(st, line).value.inv, Said(st.group, st.typ, line);
      IsChild(inv', g, c) <==> IsChild(st.inv, g, c) || said.Bears(g, c)
  {}

  /** The groups are `all` and those mentioned; one is initialized if it is `all` or has a section not for variables. */
  lemma {:induction false} GroupsReadOff(lines: seq<Line>, g: string)
    requires ParseLines(lines).Some?
    ensures var inv := ParseLines(lines).value.inv;
      && (g in inv.groups <==> g == ALL || exists said <- Told(lines) :: said.Mentions(g))
      && (IsInitialized(inv, g) <==> g == ALL || exists said <- Told(lines) :: said.Initializes(g))
    decreases |lines|
  {
    hide HandleLine, Said.Mentions, Said.Initializes;
    if lines != [] {
      var n := |lines| - 1;
      ToldLast(lines);
      GroupsReadOff(lines[..n], g);
      GroupsStep(ParseLines(lines[..n]).value, lines[n], g);
    }
  }

  /** The hosts are those that host lines name, each in exactly the groups whose sections the lines stand in. */
  lemma {:induction false} HostsReadOff(lines: seq<Line>, g: string, h: string)
    requires ParseLines(lines).Some?
    ensures var inv := ParseLines(lines).value.inv;
      && (h in inv.hosts <==> exists said <- Told(lines) :: said.Names(h))
      && (HasHost(inv, g, h) <==> exists said <- Told(lines) :: said.Joins(g, h))
    decreases |lines|
  {
    hide HandleLine, Said.Names, Said.Joins;
    if lines != [] {
      var n := |lines| - 1;
      ToldLast(lines);
      HostsReadOff(lines[..n], g, h);
      HostsStep(ParseLines(lines[..n]).value, lines[n], g, h);
    }
  }

  /** A group is a child of exactly those groups in whose child sections it stands. */
  lemma {:induction false} ChildrenReadOff(lines: seq<Line>, g: string, c: string)
    requires ParseLines(lines).Some?
    ensures IsChild(ParseLines(lines).value.inv, g, c) <==> exists said <- Told(lines) :: said.Bears(g, c)
    decreases |lines|
  {
    hide HandleLine, Said.Bears;
    if lines != [] {
      var n := |lines| - 1;
      ToldLast(lines);
      ChildrenReadOff(lines[..n], g, c);
      ChildStep(ParseLines(lines[..n]).value, lines[n], g, c);
    }
  }

  // ---------- After normalisation ----------

  /** Normalisation touches no variable: what is read off the lines is what the accepted inventory holds. */
  lemma VariablesKept(inv: Inv, inv': Inv, x: string, k: string)
    requires ALL in inv.groups && Normalised(inv, inv')
    ensures HostVarOf(inv', x, k) == HostVarOf(inv, x, k) && GroupVarOf(inv', x, k) == GroupVarOf(inv, x, k)
  {
    var hung, order, simple :|
      HungUnderAll(AddUngrouped(inv), hung, order) && Simplified(hung, simple) && inv' == WithoutAll(simple);
    hide HungUnderAll, Simplified, AddUngrouped, WithoutAll, HostVarOf, GroupVarOf;
    UngroupedVars(inv, x, k);
    HungVars(AddUngrouped(inv), hung, order, x, k);
    SimpleVars(hung, simple, x, k);
    RemovedVars(simple, x, k);
  }

  lemma UngroupedVars(inv: Inv, x: string, k: string)
    requires ALL in inv.groups
    ensures var inv' := AddUngrouped(inv);
      HostVarOf(inv', x, k) == HostVarOf(inv, x, k) && GroupVarOf(inv', x, k) == GroupVarOf(inv, x, k)
  {}

  lemma HungVars(inv: Inv, inv': Inv, order: seq<string>, x: string, k: string)
    requires HungUnderAll(inv, inv', order)
    ensures HostVarOf(inv', x, k) == HostVarOf(inv, x, k) && GroupVarOf(inv', x, k) == GroupVarOf(inv, x, k)
  {}

  lemma SimpleVars(inv: Inv, inv': Inv, x: string, k: string)
    requires Simplified(inv, inv')
    ensures HostVarOf(inv', x, k) == HostVarOf(inv, x, k) && GroupVarOf(inv', x, k) == GroupVarOf(inv, x, k)
  {}

  lemma RemovedVars(inv: Inv, x: string, k: string)
    ensures HostVarOf(WithoutAll(inv), x, k) == HostVarOf(inv, x, k)
    ensures GroupVarOf(WithoutAll(inv), x, k) == GroupVarOf(inv, x, k)
  {}

  /** The variables of an accepted file, end to end: those of its lines. */
  lemma AcceptedVariables(lines: seq<Line>, inv': Inv, x: string, k: string)
    requires ParseLines(lines).Some? && ALL in ParseLines(lines).value.inv.groups
    requires Normalised(ParseLines(lines).value.inv, inv')
    ensures HostVarOf(inv', x, k) == LastForHost(Told(lines), x, k)
    ensures GroupVarOf(inv', x, k) == LastForGroup(Told(lines), x, k)
  {
    hide Normalised, ParseLines, Told, HostVarOf, GroupVarOf;
    VariablesKept(ParseLines(lines).value.inv, inv', x, k);
    HostVariables(lines, x, k);
    GroupVariables(lines, x, k);
  }
}
