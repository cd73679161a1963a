/** Where a looked-up variable comes from, said in terms of the inventory and of the manager's own tables. */
module VarsMeaning {
  import opened Options
  import opened Ordering
  import opened InventoryModel
  import opened Inventory
  import opened VarsManager

  // ---------- Group variables ----------

  /** Entry `i` of the precedence brings the key in: from the group `all`, or from the direct groups. */
  predicate Brings(precedence: seq<string>, all: Vars, direct: Vars, k: string, i: int) {
    && 0 <= i < |precedence|
    && ((precedence[i] == "all_inventory" && k in all) || (precedence[i] == "groups_inventory" && k in direct))
  }

  ghost predicate BringsLast(precedence: seq<string>, all: Vars, direct: Vars, k: string, i: int) {
    Brings(precedence, all, direct, k, i) && forall j | i < j < |precedence| :: !Brings(precedence, all, direct, k, j)
  }

  /** Of the two entries that have an effect, the last one whose variables define the key decides it. */
  lemma {:induction false} LastEntryDecides(precedence: seq<string>, all: Vars, direct: Vars, k: string)
    ensures k in GroupLayer(precedence, all, direct) <==> exists i :: Brings(precedence, all, direct, k, i)
    ensures forall i :: BringsLast(precedence, all, direct, k, i) ==>
              && k in GroupLayer(precedence, all, direct)
              && GroupLayer(precedence, all, direct)[k]
                 == if precedence[i] == "all_inventory" then all[k] else direct[k]
  {
    hide GroupLayer;
    if precedence == [] {
      GroupLayerNone(all, direct);
    } else {
      var n := |precedence| - 1;
      var earlier := precedence[..n];
      assert precedence == earlier + [precedence[n]];
      LastEntryDecides(earlier, all, direct, k);
      GroupLayerSnoc(earlier, precedence[n], all, direct);
      forall i | 0 <= i < n ensures Brings(precedence, all, direct, k, i) <==> Brings(earlier, all, direct, k, i) {}
      if Brings(precedence, all, direct, k, n) {
        assert BringsLast(precedence, all, direct, k, n);
      } else {
        forall i | BringsLast(precedence, all, direct, k, i) ensures BringsLast(earlier, all, direct, k, i) {
          assert i != n;
        }
      }
    }
  }

  /** The direct groups come after `all`, as in the default configuration. */
  ghost predicate GroupsAfterAll(precedence: seq<string>) {
    && "all_inventory" in precedence
    && exists g: nat :: g < |precedence| && precedence[g] == "groups_inventory" && AllOnlyBefore(precedence, g)
  }

  ghost predicate AllOnlyBefore(precedence: seq<string>, g: nat) {
    forall i | g < i < |precedence| :: precedence[i] != "all_inventory"
  }

  /** The variable precedence that is configured unless somebody changes it. */
  const DEFAULT_PRECEDENCE: seq<string> := ["all_inventory", "groups_inventory", "all_plugins_inventory",
    "all_plugins_play", "groups_plugins_inventory", "groups_plugins_play"]

  lemma DefaultOrder()
    ensures GroupsAfterAll(DEFAULT_PRECEDENCE)
  {
    assert DEFAULT_PRECEDENCE[0] == "all_inventory" && DEFAULT_PRECEDENCE[1] == "groups_inventory";
    assert AllOnlyBefore(DEFAULT_PRECEDENCE, 1);
  }

  /** With the direct groups after `all`, a direct group overrides `all`, and nothing else is there. */
  lemma GroupsOverAll(precedence: seq<string>, all: Vars, direct: Vars, k: string)
    requires GroupsAfterAll(precedence)
    ensures var layer := GroupLayer(precedence, all, direct);
      if k in direct then k in layer && layer[k] == direct[k]
      else if k in all then k in layer && layer[k] == all[k]
      else k !in layer
  {
    hide GroupLayer;
    LastEntryDecides(precedence, all, direct, k);
    var g: nat :| g < |precedence| && precedence[g] == "groups_inventory" && AllOnlyBefore(precedence, g);
    if k in direct {
      var i := LastBringing(precedence, all, direct, k, g);
      assert precedence[i] == "groups_inventory";
    } else if k in all {
      var a :| 0 <= a < |precedence| && precedence[a] == "all_inventory";
      var i := LastBringing(precedence, all, direct, k, a);
    }
  }

  lemma {:induction false} LastBringing(precedence: seq<string>, all: Vars, direct: Vars, k: string, i: nat)
    returns (last: nat)
    requires Brings(precedence, all, direct, k, i)
    ensures i <= last && BringsLast(precedence, all, direct, k, last)
    decreases |precedence| - i
  {
    if j: nat :| i < j && Brings(precedence, all, direct, k, j) {
      last := LastBringing(precedence, all, direct, k, j);
    } else {
      last := i;
    }
  }

  /** Of the direct groups that define the key, this one's name comes last. */
  ghost predicate Decides(groups: seq<Group>, g: Group, k: string)
    reads set h <- groups :: h, set h <- groups :: h.vars
  {
    && g in groups && k in g.vars.entries
    && forall h <- groups :: k in h.vars.entries ==> Leq(h.name, g.name)
  }

  /** What the direct groups give a key: the value of the group that decides, or nothing if none defines it. */
  lemma DirectValue(groups: seq<Group>, k: string)
    requires Sorted(groups, NameOf) && Identified(groups, NameOf)
    ensures k in Combined(VarsOf(groups)) <==> exists g <- groups :: k in g.vars.entries
    ensures forall g <- groups | Decides(groups, g, k) ::
      k in Combined(VarsOf(groups)) && Combined(VarsOf(groups))[k] == g.vars.entries[k]
  {
    hide Sorted, Identified, Leq;
    var layers := VarsOf(groups);
    HighestWins(layers, k);
    if g :| g in groups && k in g.vars.entries {
      var i :| 0 <= i < |groups| && groups[i] == g;
      var top := HighestFrom(layers, k, i);
    }
    if i :| Highest(layers, k, i) { assert groups[i] in groups && k in groups[i].vars.entries; }
    forall g <- groups | Decides(groups, g, k)
      ensures k in Combined(layers) && Combined(layers)[k] == g.vars.entries[k]
    {
      LastNameDecides(groups, g, k);
    }
  }

  // ---------- Rendering ----------

  /** Texts that are no templates stay; templates become what they yield; one that yields nothing spoils it all. */
  lemma RenderedExactly(t: Templar, templates: Vars, env: Vars, k: string)
    ensures Rendered(t, templates, env).None? <==>
            exists x <- templates :: t.isTemplate(templates[x]) && t.template(templates[x], env).None?
    ensures Rendered(t, templates, env).Some? ==>
      var vars := Rendered(t, templates, env).value;
      && (k in vars <==> k in templates)
      && (k in vars ==> Some(vars[k]) == RenderedText(t, templates[k], env))
  {
    forall x <- templates
      ensures t.Render(templates[x], env).None? <==> t.isTemplate(templates[x]) && t.template(templates[x], env).None?
    {}
  }

  function RenderedText(t: Templar, text: string, env: Vars): Option<string> {
    if !t.isTemplate(text) then Some(text) else t.template(text, env)
  }

  /** The key has this value in the environment. */
  ghost predicate Has(vars: Vars, k: string, value: string) { k in vars && vars[k] == value }

  /**
   The play's variables are rendered with the extra variables, the facts, the host's and the groups' variables at hand;
   those of the task with the play's as well.
   */
  lemma Environments(s: Sources, play: Vars, k: string)
    ensures if k in s.extra then Has(s.PlayEnv(), k, s.extra[k])
            else if k in s.facts then Has(s.PlayEnv(), k, s.facts[k])
            else if k in s.host then Has(s.PlayEnv(), k, s.host[k])
            else if k in s.group then Has(s.PlayEnv(), k, s.group[k])
            else k !in s.PlayEnv()
    ensures if k in s.extra then Has(s.TaskEnv(play), k, s.extra[k])
            else if k in play then Has(s.TaskEnv(play), k, play[k])
            else (k in s.TaskEnv(play) <==> k in s.PlayEnv()) &&
                 (k in s.PlayEnv() ==> Has(s.TaskEnv(play), k, s.PlayEnv()[k]))
  {}

  // ---------- Magic variables ----------

  /** A connection attribute that two variables can set: the second one wins, the first one counts without it. */
  ghost predicate SecondWins(src: Vars, attr: string, first: string, second: string) {
    var magic := Magic(MAGIC, src);
    if second in src then Has(magic, attr, src[second])
    else if first in src then Has(magic, attr, src[first])
    else attr !in magic
  }

  /** Where to connect to, and as whom: the variables with `ssh` in their names give way to those without. */
  lemma WhereToConnect(src: Vars)
    ensures SecondWins(src, "remote_addr", "ansible_ssh_host", "ansible_host")
    ensures SecondWins(src, "remote_user", "ansible_ssh_user", "ansible_user")
    ensures SecondWins(src, "port", "ansible_ssh_port", "ansible_port")
    ensures SecondWins(src, "password", "ansible_ssh_pass", "ansible_password")
    ensures SecondWins(src, "become_pass", "ansible_become_password", "ansible_become_pass")
  {
    hide SecondWins;
    OfTwo(src, "remote_addr", "ansible_ssh_host", "ansible_host");
    OfTwo(src, "remote_user", "ansible_ssh_user", "ansible_user");
    OfTwo(src, "port", "ansible_ssh_port", "ansible_port");
    OfTwo(src, "password", "ansible_ssh_pass", "ansible_password");
    OfTwo(src, "become_pass", "ansible_become_password", "ansible_become_pass");
  }

  lemma OfTwo(src: Vars, attr: string, first: string, second: string)
    requires attr in MAGIC && MAGIC[attr] == [first, second]
    ensures SecondWins(src, attr, first, second)
  {
    var names := [first, second];
    LastSetExactly(names, src);
    assert names[0] == first && names[1] == second;
    if second in src { assert LastSet(names, src) == Some(src[names[1]]); }
    else if first in src { assert LastSet(names, src) == Some(src[names[0]]); }
    else { assert LastSet(names, src).None?; }
  }

  // ---------- The manager's tables ----------

  function Given(vars: Option<Vars>): Vars { if vars.Some? then vars.value else map[] }

  /** The rendered variables of the play, then those of the task, and the magic variables that all of it yields. */
  datatype Derived = Derived(play: Vars, task: Vars, magic: Vars)

  ghost predicate DerivedFrom(t: Templar, s: Sources, play: Option<Vars>, task: Option<Vars>, d: Derived) {
    && Rendered(t, Given(play), s.PlayEnv()) == Some(d.play)
    && Rendered(t, Given(task), s.TaskEnv(d.play)) == Some(d.task)
    && d.magic == Magic(MAGIC, Combined(s.Layers(d.play, d.task)))
  }

  /** A host's entry in one of the tables defines the key. */
  predicate InTable(table: map<Host, Vars>, host: Host, k: string) { host in table && k in table[host] }

  ghost predicate FromTable(vars: Vars, table: map<Host, Vars>, host: Host, k: string)
    requires InTable(table, host, k)
  {
    Has(vars, k, table[host][k])
  }

  /** The facts define the key: all of them where facts are injected, otherwise the local ones alone, set or not. */
  predicate InFacts(m: Manager, host: Host, k: string)
    reads m
  {
    host in m.hostFacts && if m.injectFacts then k in m.hostFacts[host] else k == "ansible_local"
  }

  ghost predicate FromFacts(vars: Vars, m: Manager, host: Host, k: string)
    requires InFacts(m, host, k)
    reads m
  {
    Has(vars, k, if k in m.hostFacts[host] then m.hostFacts[host][k] else EMPTY_TABLE)
  }

  ghost predicate SomeDefines(groups: seq<Group>, k: string)
    reads set h <- groups :: h.vars
  {
    exists g <- groups :: k in g.vars.entries
  }

  ghost predicate FromGroups(vars: Vars, groups: seq<Group>, k: string)
    reads set h <- groups :: h, set h <- groups :: h.vars
  {
    exists g <- groups :: Decides(groups, g, k) && Has(vars, k, g.vars.entries[k])
  }

  lemma FactsLayer(m: Manager, host: Host, k: string)
    ensures k in m.FactLayer(host) <==> InFacts(m, host, k)
    ensures k in m.FactLayer(host) ==> FromFacts(m.FactLayer(host), m, host, k)
  {}

  /** The group layer of a host whose groups are sorted. */
  lemma GroupsLayer(m: Manager, host: Host, k: string)
    requires "all" in m.inventory.groups && GroupsAfterAll(m.precedence)
    requires Sorted(host.groups, NameOf) && Identified(host.groups, NameOf)
    ensures var all := m.inventory.groups["all"].vars.entries;
      if SomeDefines(host.groups, k) then FromGroups(m.GroupsOf(host), host.groups, k)
      else if k in all then Has(m.GroupsOf(host), k, all[k])
      else k !in m.GroupsOf(host)
  {
    hide GroupLayer, GroupsAfterAll, Sorted, Identified, Combined, VarsOf;
    GroupsOverAll(m.precedence, m.inventory.groups["all"].vars.entries, Combined(VarsOf(host.groups)), k);
    DirectValue(host.groups, k);
    if SomeDefines(host.groups, k) { var g := Decider(host.groups, k); }
  }

  /** Among the groups that define a key one decides. */
  lemma Decider(groups: seq<Group>, k: string) returns (g: Group)
    requires Sorted(groups, NameOf) && SomeDefines(groups, k)
    ensures g in groups && Decides(groups, g, k)
  {
    hide Sorted, Leq;
    var layers := VarsOf(groups);
    var x :| x in groups && k in x.vars.entries;
    var i :| 0 <= i < |groups| && groups[i] == x;
    var top := HighestFrom(layers, k, i);
    g := groups[top];
    forall h <- groups | k in h.vars.entries ensures Leq(h.name, g.name) {
      var j :| 0 <= j < |groups| && groups[j] == h;
      assert k in layers[j];
      if j < top { SortedAt(groups, NameOf, j, top); } else { LeqRefl(h.name); }
    }
  }

  /**
   Where a value comes from, in the tables as they stand: the host's loop variables, the magic variables, the extra
   variables, what set_fact and include stored, the task, the play, the facts, the host, the direct group whose name
   comes last, and the group `all`. What is in none of them is not there.
   */
  lemma WhereFrom(m: Manager, play: Option<Vars>, host: Host, task: Option<Vars>, d: Derived, k: string)
    requires "all" in m.inventory.groups && GroupsAfterAll(m.precedence)
    requires Sorted(host.groups, NameOf) && Identified(host.groups, NameOf)
    requires DerivedFrom(m.templar, m.SourcesOf(play, host, task), play, task, d)
    ensures m.SourcesOf(play, host, task).Lookup(m.templar).Some?
    ensures var vars := m.SourcesOf(play, host, task).Lookup(m.templar).value;
      var all := m.inventory.groups["all"].vars.entries;
      if InTable(m.hostLoopVars, host, k) then FromTable(vars, m.hostLoopVars, host, k)
      else if k in d.magic then Has(vars, k, d.magic[k])
      else if k in m.extraVars then Has(vars, k, m.extraVars[k])
      else if InTable(m.hostNonPersistentFacts, host, k) then FromTable(vars, m.hostNonPersistentFacts, host, k)
      else if InTable(m.hostVars, host, k) then FromTable(vars, m.hostVars, host, k)
      else if k in d.task then Has(vars, k, d.task[k])
      else if k in d.play then Has(vars, k, d.play[k])
      else if InFacts(m, host, k) then FromFacts(vars, m, host, k)
      else if k in host.vars.entries then Has(vars, k, host.vars.entries[k])
      else if SomeDefines(host.groups, k) then FromGroups(vars, host.groups, k)
      else if k in all then Has(vars, k, all[k])
      else k !in vars
  {
    hide GroupLayer, GroupsAfterAll, Sorted, Identified, Combined, VarsOf, Rendered, Magic, Manager.FactLayer,
        Manager.GroupsOf, SomeDefines, Decides;
    var s := m.SourcesOf(play, host, task);
    assert s.Lookup(m.templar).Some?;
    Precedence(m.templar, s, k);
    FactsLayer(m, host, k);
    GroupsLayer(m, host, k);
  }
}
