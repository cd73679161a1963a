/**
 The inventory as the program holds it: groups and hosts are objects that point at each other, and every
 operation updates them in place. `Data.Model()` reads the object graph off as a value of `InventoryModel`.
 */
module Inventory {
  import opened Graph
  import opened InventoryModel
  import opened Options

  /** A mutable map of variables. The owner keeps the maps of different groups and hosts apart. */
  class Dict {
    ghost const owner: (bool, string)
    var entries: Vars

    constructor (ghost owner: (bool, string))
      ensures entries == map[] && this.owner == owner
    {
      this.owner := owner;
      entries := map[];
    }
  }

  /** Copies every entry of `extra` into `base`, in any order. */
  method MergeVars(base: Dict, extra: Vars)
    modifies base
    ensures base.entries == old(base.entries) + extra
  {
    var todo := extra.Keys;
    while todo != {}
      invariant todo <= extra.Keys
      invariant base.entries == old(base.entries) + (map k | k in extra && k !in todo :: extra[k])
      decreases todo
    {
      var k :| k in todo;
      base.entries := base.entries[k := extra[k]];
      todo := todo - {k};
    }
    assert (map k | k in extra && k !in todo :: extra[k]) == extra;
  }

  class Host {
    const name: string
    const vars: Dict
    var groups: seq<Group>

    constructor (name: string)
      ensures this.name == name && groups == [] && fresh(vars)
      ensures vars.owner == (true, name) && vars.entries == map[]
    {
      this.name := name;
      vars := new Dict((true, name));
      groups := [];
    }
  }

  class Group {
    const name: string
    const vars: Dict
    var children: seq<Group>
    var hosts: seq<Host>
    var parents: seq<Group>
    var initialized: bool

    constructor (name: string)
      ensures this.name == name && fresh(vars) && vars.owner == (false, name) && vars.entries == map[]
      ensures children == [] && hosts == [] && parents == [] && !initialized
    {
      this.name := name;
      vars := new Dict((false, name));
      children, hosts, parents, initialized := [], [], [], false;
    }
  }

  /** The list of groups that a list of names stands for, and the same for hosts. */
  ghost predicate Links(registry: map<string, Group>, groups: seq<Group>, names: seq<string>) {
    |groups| == |names| && forall i | 0 <= i < |names| :: names[i] in registry && groups[i] == registry[names[i]]
  }

  ghost predicate HostLinks(registry: map<string, Host>, hosts: seq<Host>, names: seq<string>) {
    |hosts| == |names| && forall i | 0 <= i < |names| :: names[i] in registry && hosts[i] == registry[names[i]]
  }

  /** The object `g` is the group called `n` in an inventory where it has the entry `rec`. */
  ghost predicate GroupStands(groups: map<string, Group>, hosts: map<string, Host>, n: string, g: Group, rec: GroupRec)
    reads g, g.vars
  {
    && g.name == n && g.vars.owner == (false, n)
    && g.vars.entries == rec.vars && g.initialized == rec.initialized
    && Links(groups, g.children, rec.children)
    && Links(groups, g.parents, rec.parents)
    && HostLinks(hosts, g.hosts, rec.hosts)
  }

  ghost predicate HostStands(groups: map<string, Group>, n: string, h: Host, rec: HostRec)
    reads h, h.vars
  {
    && h.name == n && h.vars.owner == (true, n)
    && h.vars.entries == rec.vars
    && Links(groups, h.groups, rec.groups)
  }

  lemma EmptyLinks(groups: map<string, Group>, hosts: map<string, Host>)
    ensures Links(groups, [], []) && HostLinks(hosts, [], [])
  {}

  lemma LinksAppend(registry: map<string, Group>, groups: seq<Group>, names: seq<string>, g: Group)
    requires Links(registry, groups, names) && g.name in registry && registry[g.name] == g
    ensures Links(registry, groups + [g], names + [g.name])
  {}

  lemma HostLinksAppend(registry: map<string, Host>, hosts: seq<Host>, names: seq<string>, hosts': seq<Host>,
      names': seq<string>)
    requires HostLinks(registry, hosts, names) && HostLinks(registry, hosts', names')
    ensures HostLinks(registry, hosts + hosts', names + names')
  {}

  lemma HostLinksOne(registry: map<string, Host>, h: Host)
    requires h.name in registry && registry[h.name] == h
    ensures HostLinks(registry, [h], [h.name])
  {}

  lemma LinksWithout(registry: map<string, Group>, groups: seq<Group>, names: seq<string>, i: nat)
    requires Links(registry, groups, names) && i < |groups|
    ensures |names| == |groups| && Links(registry, groups[..i] + groups[i + 1..], names[..i] + names[i + 1..])
  {}

  lemma LinkAt(registry: map<string, Group>, groups: seq<Group>, names: seq<string>, i: nat)
    requires Links(registry, groups, names) && i < |groups|
    ensures |names| == |groups| && names[i] in registry && groups[i] == registry[names[i]]
  {}

  lemma LinksLength(registry: map<string, Group>, groups: seq<Group>, names: seq<string>)
    requires Links(registry, groups, names)
    ensures |names| == |groups|
  {}

  /** Every name is registered for the object of that name. */
  predicate Named(registry: map<string, Group>) {
    forall n <- registry :: registry[n].name == n
  }

  /** The same groups, each once, in whatever order a set yields them. */
  method Deduplicate(groups: seq<Group>, ghost registry: map<string, Group>, ghost names: seq<string>)
    returns (ret: seq<Group>, ghost names': seq<string>)
    requires Links(registry, groups, names) && Named(registry)
    ensures Links(registry, ret, names') && Deduplicated(names, names')
  {
    var groupSet := set g | g in groups;
    ret, names' := [], [];
    while groupSet != {}
      invariant Links(registry, ret, names') && NoDuplicates(names')
      invariant forall g <- groupSet :: g in groups && g.name !in names'
      invariant forall n <- names' :: n in names
      invariant forall g <- groups :: g in groupSet || g.name in names'
      decreases groupSet
    {
      var g :| g in groupSet;
      var i :| 0 <= i < |groups| && groups[i] == g;
      assert names[i] == g.name;
      ret, names' := ret + [g], names' + [g.name];
      groupSet := groupSet - {g};
    }
    forall n <- names ensures n in names' {
      var i :| 0 <= i < |names| && names[i] == n;
      assert groups[i] in groups && groups[i].name == n;
    }
  }

  /** What a standing group is made of. */
  lemma GroupParts(groups: map<string, Group>, hosts: map<string, Host>, n: string, g: Group, rec: GroupRec)
    ensures GroupStands(groups, hosts, n, g, rec) <==>
            && g.name == n && g.vars.owner == (false, n) && g.vars.entries == rec.vars
            && g.initialized == rec.initialized
            && Links(groups, g.children, rec.children) && Links(groups, g.parents, rec.parents)
            && HostLinks(hosts, g.hosts, rec.hosts)
  {
    hide Links, HostLinks;
  }

  lemma HostParts(groups: map<string, Group>, n: string, h: Host, rec: HostRec)
    ensures HostStands(groups, n, h, rec) <==>
            && h.name == n && h.vars.owner == (true, n) && h.vars.entries == rec.vars
            && Links(groups, h.groups, rec.groups)
  {
    hide Links;
  }

  /** Registries that only grow keep every group and host standing. */
  lemma GroupStandsGrow(groups: map<string, Group>, groups': map<string, Group>, hosts: map<string, Host>,
      hosts': map<string, Host>,
                        n: string, g: Group, rec: GroupRec)
    requires GroupStands(groups, hosts, n, g, rec)
    requires forall n <- groups :: n in groups' && groups'[n] == groups[n]
    requires forall n <- hosts :: n in hosts' && hosts'[n] == hosts[n]
    ensures GroupStands(groups', hosts', n, g, rec)
  {}

  lemma HostStandsGrow(groups: map<string, Group>, groups': map<string, Group>, n: string, h: Host, rec: HostRec)
    requires HostStands(groups, n, h, rec)
    requires forall n <- groups :: n in groups' && groups'[n] == groups[n]
    ensures HostStands(groups', n, h, rec)
  {}

  /**
   The objects hold exactly the inventory `inv`: map keys are object names, every pointer leads to the
   registered object of that name, and no two objects share their variables. `repr` holds all of them.
   The names in `gs` and `hs` are left out: their objects are being changed.
   */
  ghost predicate Stands(repr: set<object>, groups: map<string, Group>, hosts: map<string, Host>, inv: Inv,
                         gs: set<string>, hs: set<string>)
    reads repr
  {
    && groups.Keys == inv.groups.Keys
    && hosts.Keys == inv.hosts.Keys
    && (forall n <- groups | n !in gs ::
          groups[n] in repr && groups[n].vars in repr && GroupStands(groups, hosts, n, groups[n], inv.groups[n]))
    && (forall n <- hosts | n !in hs ::
          hosts[n] in repr && hosts[n].vars in repr && HostStands(groups, n, hosts[n], inv.hosts[n]))
  }

  lemma RegisterGroup(repr: set<object>, groups: map<string, Group>, hosts: map<string, Host>, inv: Inv, name: string,
      group: Group)
    requires Stands(repr, groups, hosts, inv, {}, {}) && name !in groups
    requires GroupStands(groups[name := group], hosts, name, group, NEW_GROUP)
    ensures Stands(repr + {group, group.vars}, groups[name := group], hosts, WithGroup(inv, name), {}, {})
  {
    var groups' := groups[name := group];
    hide GroupStands, HostStands;
    forall n <- groups ensures GroupStands(groups', hosts, n, groups[n], inv.groups[n]) {
      GroupStandsGrow(groups, groups', hosts, hosts, n, groups[n], inv.groups[n]);
    }
    forall n <- hosts ensures HostStands(groups', n, hosts[n], inv.hosts[n]) {
      HostStandsGrow(groups, groups', n, hosts[n], inv.hosts[n]);
    }
  }

  lemma RegisterHost(repr: set<object>, groups: map<string, Group>, hosts: map<string, Host>, inv: Inv, name: string,
      host: Host)
    requires Stands(repr, groups, hosts, inv, {}, {}) && name !in hosts
    requires HostStands(groups, name, host, NEW_HOST)
    ensures Stands(repr + {host, host.vars}, groups, hosts[name := host], WithHost(inv, name), {}, {})
  {
    var hosts' := hosts[name := host];
    hide GroupStands, HostStands;
    forall n <- groups ensures GroupStands(groups, hosts', n, groups[n], inv.groups[n]) {
      GroupStandsGrow(groups, groups, hosts, hosts', n, groups[n], inv.groups[n]);
    }
  }

  /** Taking a group out of the inventory to change it: no other object shares it or its variables. */
  lemma ReleaseGroup(repr: set<object>, groups: map<string, Group>, hosts: map<string, Host>, inv: Inv, n: string)
    requires Stands(repr, groups, hosts, inv, {}, {}) && n in groups
    ensures GroupStands(groups, hosts, n, groups[n], inv.groups[n])
    ensures Stands(repr - {groups[n], groups[n].vars}, groups, hosts, inv, {n}, {})
    ensures groups[n] in repr && groups[n].vars in repr
  {
    hide Links, HostLinks;
    assert forall m <- groups :: groups[m].name == m && groups[m].vars.owner == (false, m);
    assert forall m <- hosts :: hosts[m].vars.owner == (true, m);
  }

  lemma ReleaseHost(repr: set<object>, groups: map<string, Group>, hosts: map<string, Host>, inv: Inv, n: string)
    requires Stands(repr, groups, hosts, inv, {}, {}) && n in hosts
    ensures HostStands(groups, n, hosts[n], inv.hosts[n])
    ensures Stands(repr - {hosts[n], hosts[n].vars}, groups, hosts, inv, {}, {n})
    ensures hosts[n] in repr && hosts[n].vars in repr
  {
    hide Links, HostLinks;
    assert forall m <- groups :: groups[m].vars.owner == (false, m);
    assert forall m <- hosts :: hosts[m].name == m && hosts[m].vars.owner == (true, m);
  }

  /** Putting a changed group back. */
  lemma RestoreGroup(repr: set<object>, groups: map<string, Group>, hosts: map<string, Host>, inv: Inv, n: string,
      rec: GroupRec)
    requires n in groups && Stands(repr - {groups[n], groups[n].vars}, groups, hosts, inv, {n}, {})
    requires GroupStands(groups, hosts, n, groups[n], rec) && groups[n] in repr && groups[n].vars in repr
    ensures Stands(repr, groups, hosts, SetGroup(inv, n, rec), {}, {})
  {
    hide GroupStands, HostStands;
  }

  lemma RestoreHost(repr: set<object>, groups: map<string, Group>, hosts: map<string, Host>, inv: Inv, n: string,
      rec: HostRec)
    requires n in hosts && Stands(repr - {hosts[n], hosts[n].vars}, groups, hosts, inv, {}, {n})
    requires HostStands(groups, n, hosts[n], rec) && hosts[n] in repr && hosts[n].vars in repr
    ensures Stands(repr, groups, hosts, SetHost(inv, n, rec), {}, {})
  {
    hide GroupStands, HostStands;
  }

  class Data {
    var hosts: map<string, Host>
    var groups: map<string, Group>
    ghost var inv: Inv
    ghost var Repr: set<object>

    constructor ()
      ensures hosts == map[] && groups == map[] && inv == Inv(map[], map[]) && Repr == {}
      ensures Valid()
    {
      hosts, groups, inv, Repr := map[], map[], Inv(map[], map[]), {};
    }

    ghost predicate Valid()
      reads this, Repr
    {
      && this !in Repr
      && groups.Keys == inv.groups.Keys && hosts.Keys == inv.hosts.Keys
      && Stands(Repr, groups, hosts, inv, {}, {})
    }

    predicate Registered(group: Group)
      reads this
    {
      group.name in groups && groups[group.name] == group
    }

    predicate Known(host: Host)
      reads this
    {
      host.name in hosts && hosts[host.name] == host
    }

    method GroupByName(name: string) returns (group: Group)
      requires Valid()
      modifies this`groups, this`inv, this`Repr
      ensures Valid() && inv == WithGroup(old(inv), name)
      ensures group.name == name && groups == old(groups)[name := group] && Repr == old(Repr) + {group, group.vars}
      ensures fresh(Repr - old(Repr))
      ensures if name in old(groups) then groups == old(groups) && Repr == old(Repr)
              else fresh(group) && fresh(group.vars)
    {
      hide Stands, GroupStands, HostStands, Links, HostLinks;
      if name in groups {
        group := groups[name];
        ReleaseGroup(Repr, groups, hosts, inv, name);
        GroupParts(groups, hosts, name, group, inv.groups[name]);
      } else {
        group := new Group(name);
        EmptyLinks(groups[name := group], hosts);
        GroupParts(groups[name := group], hosts, name, group, NEW_GROUP);
        RegisterGroup(Repr, groups, hosts, inv, name, group);
        groups, inv, Repr := groups[name := group], WithGroup(inv, name), Repr + {group, group.vars};
      }
    }

    method HostByName(name: string) returns (host: Host)
      requires Valid()
      modifies this`hosts, this`inv, this`Repr
      ensures Valid() && inv == WithHost(old(inv), name)
      ensures host.name == name && hosts == old(hosts)[name := host] && Repr == old(Repr) + {host, host.vars}
      ensures if name in old(hosts) then hosts == old(hosts) && Repr == old(Repr) else fresh(host) && fresh(host.vars)
    {
      hide Stands, GroupStands, HostStands, Links, HostLinks;
      if name in hosts {
        host := hosts[name];
        ReleaseHost(Repr, groups, hosts, inv, name);
        HostParts(groups, name, host, inv.hosts[name]);
      } else {
        host := new Host(name);
        EmptyLinks(groups, hosts);
        HostParts(groups, name, host, NEW_HOST);
        RegisterHost(Repr, groups, hosts, inv, name, host);
        hosts, inv, Repr := hosts[name := host], WithHost(inv, name), Repr + {host, host.vars};
      }
    }

    method MarkInitialized(group: Group)
      requires Valid() && Registered(group)
      modifies this`inv, group
      ensures Valid() && inv == SetGroup(old(inv), group.name, old(inv).groups[group.name].(initialized := true))
    {
      hide Stands, GroupStands, HostStands, Links, HostLinks;
      ghost var rec := inv.groups[group.name].(initialized := true);
      ReleaseGroup(Repr, groups, hosts, inv, group.name);
      GroupParts(groups, hosts, group.name, group, inv.groups[group.name]);
      group.initialized := true;
      GroupParts(groups, hosts, group.name, group, rec);
      RestoreGroup(Repr, groups, hosts, inv, group.name, rec);
      inv := SetGroup(inv, group.name, rec);
    }

    method AppendHost(group: Group, host: Host)
      requires Valid() && Registered(group) && Known(host)
      modifies this`inv, group
      ensures Valid() && inv == SetGroup(old(inv), group.name,
          old(inv).groups[group.name].(hosts := old(inv).groups[group.name].hosts + [host.name]))
    {
      hide Stands, GroupStands, HostStands, Links, HostLinks;
      ghost var rec := inv.groups[group.name].(hosts := old(inv).groups[group.name].hosts + [host.name]);
      ReleaseGroup(Repr, groups, hosts, inv, group.name);
      GroupParts(groups, hosts, group.name, group, inv.groups[group.name]);
      HostLinksOne(hosts, host);
      HostLinksAppend(hosts, group.hosts, inv.groups[group.name].hosts, [host], [host.name]);
      group.hosts := group.hosts + [host];
      GroupParts(groups, hosts, group.name, group, rec);
      RestoreGroup(Repr, groups, hosts, inv, group.name, rec);
      inv := SetGroup(inv, group.name, rec);
    }

    method AppendChild(group: Group, child: Group)
      requires Valid() && Registered(group) && Registered(child)
      modifies this`inv, group
      ensures Valid() && inv == SetGroup(old(inv), group.name,
          old(inv).groups[group.name].(children := old(inv).groups[group.name].children + [child.name]))
    {
      hide Stands, GroupStands, HostStands, Links, HostLinks;
      ghost var rec := inv.groups[group.name].(children := old(inv).groups[group.name].children + [child.name]);
      ReleaseGroup(Repr, groups, hosts, inv, group.name);
      GroupParts(groups, hosts, group.name, group, inv.groups[group.name]);
      LinksAppend(groups, group.children, inv.groups[group.name].children, child);
      group.children := group.children + [child];
      GroupParts(groups, hosts, group.name, group, rec);
      RestoreGroup(Repr, groups, hosts, inv, group.name, rec);
      inv := SetGroup(inv, group.name, rec);
    }

    method AppendParent(group: Group, parent: Group)
      requires Valid() && Registered(group) && Registered(parent)
      modifies this`inv, group
      ensures Valid() && inv == SetGroup(old(inv), group.name,
          old(inv).groups[group.name].(parents := old(inv).groups[group.name].parents + [parent.name]))
    {
      hide Stands, GroupStands, HostStands, Links, HostLinks;
      ghost var rec := inv.groups[group.name].(parents := old(inv).groups[group.name].parents + [parent.name]);
      ReleaseGroup(Repr, groups, hosts, inv, group.name);
      GroupParts(groups, hosts, group.name, group, inv.groups[group.name]);
      LinksAppend(groups, group.parents, inv.groups[group.name].parents, parent);
      group.parents := group.parents + [parent];
      GroupParts(groups, hosts, group.name, group, rec);
      RestoreGroup(Repr, groups, hosts, inv, group.name, rec);
      inv := SetGroup(inv, group.name, rec);
    }

    method AppendGroup(host: Host, group: Group)
      requires Valid() && Known(host) && Registered(group)
      modifies this`inv, host
      ensures Valid() && inv == SetHost(old(inv), host.name,
          old(inv).hosts[host.name].(groups := old(inv).hosts[host.name].groups + [group.name]))
    {
      hide Stands, GroupStands, HostStands, Links, HostLinks;
      ghost var rec := inv.hosts[host.name].(groups := old(inv).hosts[host.name].groups + [group.name]);
      ReleaseHost(Repr, groups, hosts, inv, host.name);
      HostParts(groups, host.name, host, inv.hosts[host.name]);
      LinksAppend(groups, host.groups, inv.hosts[host.name].groups, group);
      host.groups := host.groups + [group];
      HostParts(groups, host.name, host, rec);
      RestoreHost(Repr, groups, hosts, inv, host.name, rec);
      inv := SetHost(inv, host.name, rec);
    }

    method AddVarsToHost(name: string, vars: Vars) returns (host: Host)
      requires Valid()
      modifies this, Repr
      ensures Valid() && groups == old(groups)
      ensures host.name == name && hosts == old(hosts)[name := host] && host in Repr && old(Repr) <= Repr &&
          fresh(Repr - old(Repr))
      ensures inv == var r := WithHost(old(inv), name);
                     SetHost(r, name, r.hosts[name].(vars := r.hosts[name].vars + vars))
    {
      hide Stands, GroupStands;
      host := HostByName(name);
      ghost var rec := inv.hosts[name].(vars := inv.hosts[name].vars + vars);
      ReleaseHost(Repr, groups, hosts, inv, name);
      HostParts(groups, name, host, inv.hosts[name]);
      MergeVars(host.vars, vars);
      assert HostStands(groups, name, host, rec);
      RestoreHost(Repr, groups, hosts, inv, name, rec);
      inv := SetHost(inv, name, rec);
    }

    // ---------- Normalisation ----------

    method AddUngroupedGroup()
      requires Valid()
      modifies this, Repr
      ensures Valid() && inv == AddUngrouped(old(inv)) && old(Repr) <= Repr && fresh(Repr - old(Repr))
    {
      hide Stands, GroupStands, HostStands, Links, HostLinks;
      var ungrouped := InitializedGroup(UNGROUPED);
      var all := GroupByName(ALL);
      MoveHosts(ungrouped, all);
    }

    /** The group of that name, made if need be, and initialized. */
    method InitializedGroup(name: string) returns (group: Group)
      requires Valid()
      modifies this`groups, this`inv, this`Repr, Repr
      ensures Valid() && inv == Initialize(WithGroup(old(inv), name), name)
      ensures group.name == name && groups == old(groups)[name := group] && group in Repr
      ensures old(Repr) <= Repr && fresh(Repr - old(Repr))
    {
      hide Stands, GroupStands, HostStands, Links, HostLinks;
      group := GroupByName(name);
      MarkInitialized(group);
    }

    /** `ungrouped` takes over the hosts of `all`. */
    method MoveHosts(ungrouped: Group, all: Group)
      requires Valid() && Registered(ungrouped) && Registered(all) && ungrouped.name == UNGROUPED && all.name == ALL
      modifies this`inv, ungrouped, all
      ensures Valid()
      ensures var u := old(inv).groups[UNGROUPED];
              var moved := SetGroup(old(inv), UNGROUPED, u.(hosts := u.hosts + old(inv).groups[ALL].hosts));
              inv == SetGroup(moved, ALL, moved.groups[ALL].(hosts := []))
    {
      hide Stands, GroupStands, HostStands, Links, HostLinks;
      ghost var u := inv.groups[UNGROUPED].(hosts := inv.groups[UNGROUPED].hosts + inv.groups[ALL].hosts);
      ReleaseGroup(Repr, groups, hosts, inv, ALL);
      GroupParts(groups, hosts, ALL, all, inv.groups[ALL]);
      ReleaseGroup(Repr, groups, hosts, inv, UNGROUPED);
      GroupParts(groups, hosts, UNGROUPED, ungrouped, inv.groups[UNGROUPED]);
      HostLinksAppend(hosts, ungrouped.hosts, inv.groups[UNGROUPED].hosts, all.hosts, inv.groups[ALL].hosts);
      ungrouped.hosts := ungrouped.hosts + all.hosts;
      GroupParts(groups, hosts, UNGROUPED, ungrouped, u);
      RestoreGroup(Repr, groups, hosts, inv, UNGROUPED, u);
      inv := SetGroup(inv, UNGROUPED, u);
      ClearHosts(all);
    }

    method ClearHosts(group: Group)
      requires Valid() && Registered(group)
      modifies this`inv, group
      ensures Valid() && inv == SetGroup(old(inv), group.name, old(inv).groups[group.name].(hosts := []))
    {
      hide Stands, GroupStands, HostStands, Links, HostLinks;
      ghost var rec := inv.groups[group.name].(hosts := []);
      ReleaseGroup(Repr, groups, hosts, inv, group.name);
      GroupParts(groups, hosts, group.name, group, inv.groups[group.name]);
      EmptyLinks(groups, hosts);
      group.hosts := [];
      GroupParts(groups, hosts, group.name, group, rec);
      RestoreGroup(Repr, groups, hosts, inv, group.name, rec);
      inv := SetGroup(inv, group.name, rec);
    }

    method HangUnderAll(all: Group, group: Group)
      requires Valid() && Registered(all) && Registered(group) && all.name == ALL && group.name != ALL
      requires all in Repr && group in Repr
      modifies this`inv, all, group
      ensures Valid()
      ensures var a, g := old(inv).groups[ALL], old(inv).groups[group.name];
              inv == SetGroup(SetGroup(old(inv), ALL, a.(children := a.children + [group.name])),
                              group.name, g.(parents := g.parents + [ALL]))
    {
      hide Stands, GroupStands, HostStands, Links, HostLinks;
      AppendChild(all, group);
      AppendParent(group, all);
    }

    /** Every group without parents is hung under `all`, in the order the map yields them. */
    method AddToAllGroup() returns (ghost order: seq<string>)
      requires Valid() && ALL in groups
      modifies this`inv, Repr
      ensures Valid() && HungUnderAll(old(inv), inv, order)
    {
      hide Stands, GroupStands, HostStands, Links, HostLinks, Hanging;
      var all := groups[ALL];
      var todo := groups.Keys;
      order := [];
      ghost var before := inv;
      HangingStart(inv);
      while todo != {}
        invariant todo <= groups.Keys && Valid()
        invariant groups == old(groups) && Repr == old(Repr)
        invariant Hanging(before, inv, order, todo)
        decreases todo
      {
        var name :| name in todo;
        var group := groups[name];
        InRepr(name);
        InRepr(ALL);
        HangingStep(before, inv, order, todo, name);
        if |group.parents| == 0 && name != ALL {
          HangUnderAll(all, group);
          order := order + [name];
        }
        todo := todo - {name};
      }
      HangingDone(before, inv, order);
    }

    lemma AllNamed()
      requires Valid()
      ensures Named(groups)
    {
      hide Links, HostLinks;
    }

    method DeduplicateParents(group: Group) returns (ghost names: seq<string>)
      requires Valid() && Registered(group)
      modifies this`inv, group
      ensures Valid() && inv == SetGroup(old(inv), group.name, old(inv).groups[group.name].(parents := names))
      ensures Deduplicated(old(inv).groups[group.name].parents, names)
    {
      hide Stands, GroupStands, HostStands, Links, HostLinks, Deduplicated, Named;
      AllNamed();
      ReleaseGroup(Repr, groups, hosts, inv, group.name);
      GroupParts(groups, hosts, group.name, group, inv.groups[group.name]);
      var unique;
      unique, names := Deduplicate(group.parents, groups, inv.groups[group.name].parents);
      ghost var rec := inv.groups[group.name].(parents := names);
      group.parents := unique;
      GroupParts(groups, hosts, group.name, group, rec);
      RestoreGroup(Repr, groups, hosts, inv, group.name, rec);
      inv := SetGroup(inv, group.name, rec);
    }

    method DeduplicateGroups(host: Host) returns (ghost names: seq<string>)
      requires Valid() && Known(host)
      modifies this`inv, host
      ensures Valid() && inv == SetHost(old(inv), host.name, old(inv).hosts[host.name].(groups := names))
      ensures Deduplicated(old(inv).hosts[host.name].groups, names)
    {
      hide Stands, GroupStands, HostStands, Links, HostLinks, Deduplicated, Named;
      AllNamed();
      ReleaseHost(Repr, groups, hosts, inv, host.name);
      HostParts(groups, host.name, host, inv.hosts[host.name]);
      var unique;
      unique, names := Deduplicate(host.groups, groups, inv.hosts[host.name].groups);
      ghost var rec := inv.hosts[host.name].(groups := names);
      host.groups := unique;
      HostParts(groups, host.name, host, rec);
      RestoreHost(Repr, groups, hosts, inv, host.name, rec);
      inv := SetHost(inv, host.name, rec);
    }

    method Simplify()
      requires Valid()
      modifies this`inv, Repr
      ensures Valid() && Simplified(old(inv), inv)
    {
      hide Stands, GroupStands, HostStands, Links, HostLinks, Simplifying, Simplified, Deduplicated;
      ghost var before := inv;
      SimplifyingStart(inv);
      var todoHosts := hosts.Keys;
      while todoHosts != {}
        invariant todoHosts <= hosts.Keys && Valid()
        invariant groups == old(groups) && hosts == old(hosts) && Repr == old(Repr)
        invariant Simplifying(before, inv, todoHosts, groups.Keys)
        decreases todoHosts
      {
        var name :| name in todoHosts;
        HostInRepr(name);
        ghost var current := inv;
        ghost var names := DeduplicateGroups(hosts[name]);
        SimplifyHost(before, current, todoHosts, groups.Keys, name, names);
        todoHosts := todoHosts - {name};
      }
      var todo := groups.Keys;
      while todo != {}
        invariant todo <= groups.Keys && Valid()
        invariant groups == old(groups) && hosts == old(hosts) && Repr == old(Repr)
        invariant Simplifying(before, inv, {}, todo)
        decreases todo
      {
        var name :| name in todo;
        InRepr(name);
        ghost var current := inv;
        ghost var names := DeduplicateParents(groups[name]);
        SimplifyGroup(before, current, {}, todo, name, names);
        todo := todo - {name};
      }
      SimplifyingDone(before, inv);
    }

    /** Removes the first mention of `all`; there is no second one after `Simplify`. */
    method RemoveAllFrom(host: Host, all: Group)
      requires Valid() && Known(host) && Registered(all) && all.name == ALL
      modifies this`inv, host
      ensures Valid()
      ensures var rec := old(inv).hosts[host.name];
              inv == SetHost(old(inv), host.name, rec.(groups := RemoveFirst(rec.groups, ALL)))
    {
      hide Stands, GroupStands, HostStands, Links, HostLinks, Named;
      AllNamed();
      ReleaseHost(Repr, groups, hosts, inv, host.name);
      HostParts(groups, host.name, host, inv.hosts[host.name]);
      ghost var names := inv.hosts[host.name].groups;
      LinksLength(groups, host.groups, names);
      var i := 0;
      while i < |host.groups| && host.groups[i] != all
        invariant i <= |host.groups| && forall k | 0 <= k < i :: names[k] != ALL
        modifies {}
      {
        LinkAt(groups, host.groups, names, i);
        assert Named(groups);
        NotNamedAll(groups, names[i], all);
        i := i + 1;
      }
      ghost var rec := inv.hosts[host.name].(groups := RemoveFirst(names, ALL));
      if i < |host.groups| {
        LinkAt(groups, host.groups, names, i);
        NamedAll(groups, names[i], all);
        LinksWithout(groups, host.groups, names, i);
        host.groups := host.groups[..i] + host.groups[i + 1..];
      }
      RemoveFirstAt(names, ALL, i);
      HostParts(groups, host.name, host, rec);
      RestoreHost(Repr, groups, hosts, inv, host.name, rec);
      inv := SetHost(inv, host.name, rec);
    }

    method RemoveAllGroupFromHosts()
      requires Valid() && ALL in groups
      modifies this`inv, Repr
      ensures Valid() && inv == WithoutAll(old(inv))
    {
      hide Stands, GroupStands, HostStands, Links, HostLinks, Removing, WithoutAll;
      var all := groups[ALL];
      InRepr(ALL);
      ghost var before := inv;
      var todo := hosts.Keys;
      RemovingStart(inv);
      while todo != {}
        invariant todo <= hosts.Keys && Valid()
        invariant groups == old(groups) && hosts == old(hosts) && Repr == old(Repr)
        invariant Removing(before, inv, todo)
        decreases todo
      {
        var name :| name in todo;
        HostInRepr(name);
        RemovingStep(before, inv, todo, name);
        RemoveAllFrom(hosts[name], all);
        todo := todo - {name};
      }
      RemovingDone(before, inv);
    }

    // ---------- Validation ----------

    method ValidateGroupInitialization() returns (ok: bool)
      requires Valid()
      ensures ok <==> AllInitialized(inv)
    {
      hide Stands, GroupStands, HostStands, Links, HostLinks;
      var todo := groups.Keys;
      while todo != {}
        invariant todo <= groups.Keys
        invariant forall g <- inv.groups :: g !in todo ==> inv.groups[g].initialized
        decreases todo
      {
        var name :| name in todo;
        InRepr(name);
        if !groups[name].initialized { return false; }
        todo := todo - {name};
      }
      return true;
    }

    /** Every parent and every child is registered. */
    lemma LinksClosed()
      requires Valid()
      ensures Closed(Parents(inv)) && Closed(Children(inv))
      ensures |Parents(inv)| == |groups|
    {
      assert Parents(inv).Keys == groups.Keys;
      forall g <- inv.groups
        ensures forall p <- inv.groups[g].parents :: p in inv.groups
        ensures forall c <- inv.groups[g].children :: c in inv.groups
      {
        ReleaseGroup(Repr, groups, hosts, inv, g);
      }
    }

    method ValidateNoCircularReferences() returns (ok: bool)
      requires Valid()
      ensures Closed(Parents(inv)) && (ok <==> NoCircularReferences(Parents(inv)))
    {
      hide Stands, GroupStands, HostStands, Links, HostLinks;
      LinksClosed();
      ghost var e := Parents(inv);
      var todo := groups.Keys;
      while todo != {}
        invariant todo <= groups.Keys
        invariant forall g <- e | g !in todo :: !Graph.CircularReference(e, e[g], g, |e|)
        decreases todo
      {
        var name :| name in todo;
        var group := groups[name];
        InRepr(name);
        ParentLinks(name);
        assert name in e && e[name] == inv.groups[name].parents;
        var found := CircularReference(group.parents, group, |groups|, e[name]);
        assert found == Graph.CircularReference(e, e[name], name, |e|);
        if found { return false; }
        todo := todo - {name};
      }
      return true;
    }

    lemma ParentLinks(name: string)
      requires Valid() && name in groups
      ensures Links(groups, groups[name].parents, inv.groups[name].parents)
      ensures Links(groups, groups[name].children, inv.groups[name].children)
      ensures HostLinks(hosts, groups[name].hosts, inv.groups[name].hosts)
      ensures forall p <- inv.groups[name].parents :: p in inv.groups
    {}

    method CircularReference(parents: seq<Group>, group: Group, maxDepth: nat,
        ghost names: seq<string>) returns (found: bool)
      requires Valid() && Links(groups, parents, names) && Registered(group)
      requires Closed(Parents(inv)) && forall p <- names :: p in inv.groups
      ensures found == Graph.CircularReference(Parents(inv), names, group.name, maxDepth)
      decreases maxDepth
    {
      hide Stands, GroupStands, HostStands, Links, HostLinks;
      LinksLength(groups, parents, names);
      if maxDepth == 0 { return true; }
      for i := 0 to |parents|
        invariant forall k | 0 <= k < i ::
          names[k] != group.name && !Graph.CircularReference(Parents(inv), Parents(inv)[names[k]], group.name,
              maxDepth - 1)
      {
        var parent := parents[i];
        LinkAt(groups, parents, names, i);
        InRepr(names[i]);
        if parent == group { return true; }
        ParentLinks(names[i]);
        found := CircularReference(parent.parents, group, maxDepth - 1, inv.groups[names[i]].parents);
        if found { return true; }
      }
      return false;
    }

    /**
     Normalisation and validation. It fails for an uninitialized group, else for a cycle among the parents,
     and leaves the normalised inventory either way.
     */
    method FormatAndValidate() returns (err: Option<ValidationError>)
      requires Valid()
      modifies this, Repr
      ensures Valid() && Normalised(old(inv), inv)
      ensures err == if !AllInitialized(inv) then Some(Uninitialized)
                     else if Cyclic(Parents(inv)) then Some(Circular)
                     else None
    {
      hide Stands, GroupStands, HostStands, Links, HostLinks, HungUnderAll, Simplified, WithoutAll, AllInitialized,
          NoCircularReferences, Cyclic;
      ghost var before := inv;
      AddUngroupedGroup();
      assert ALL in inv.groups;
      ghost var order := AddToAllGroup();
      ghost var hung := inv;
      Simplify();
      ghost var simple := inv;
      assert ALL in groups by { NamesKept(AddUngrouped(before), hung, order, simple); }
      RemoveAllGroupFromHosts();
      assert Normalised(before, inv);
      var ok := ValidateGroupInitialization();
      if !ok { return Some(Uninitialized); }
      ok := ValidateNoCircularReferences();
      SearchIsExact(Parents(inv));
      return if ok then None else Some(Circular);
    }

    lemma HostInRepr(name: string)
      requires Valid() && name in hosts
      ensures hosts[name] in Repr && hosts[name].name == name && hosts[name].vars.entries == inv.hosts[name].vars
      ensures Links(groups, hosts[name].groups, inv.hosts[name].groups)
    {}

    lemma InRepr(name: string)
      requires Valid() && name in groups
      ensures groups[name] in Repr && groups[name].name == name
      ensures |groups[name].parents| == |inv.groups[name].parents| &&
          groups[name].initialized == inv.groups[name].initialized
      ensures groups[name].vars.entries == inv.groups[name].vars
    {}
  }

  /** While hanging groups: those still to do are unchanged, the others are as they should end up. */
  ghost predicate Hanging(inv: Inv, inv': Inv, order: seq<string>, todo: set<string>) {
    && ALL in inv.groups
    && inv'.hosts == inv.hosts && inv'.groups.Keys == inv.groups.Keys
    && NoDuplicates(order)
    && (forall g :: g in order <==> Orphan(inv, g) && g !in todo)
    && (forall g <- inv.groups :: inv'.groups[g] ==
         if g == ALL then inv.groups[g].(children := inv.groups[g].children + order)
         else if Orphan(inv, g) && g !in todo then inv.groups[g].(parents := [ALL])
         else inv.groups[g])
  }

  datatype ValidationError = Uninitialized | Circular

  lemma NamesKept(inv: Inv, hung: Inv, order: seq<string>, simple: Inv)
    requires HungUnderAll(inv, hung, order) && Simplified(hung, simple)
    ensures ALL in simple.groups
  {}

  lemma NotNamedAll(registry: map<string, Group>, name: string, all: Group)
    requires Named(registry) && name in registry && ALL in registry && registry[ALL] == all && registry[name] != all
    ensures name != ALL
  {}

  lemma NamedAll(registry: map<string, Group>, name: string, all: Group)
    requires Named(registry) && name in registry && ALL in registry && registry[ALL] == all == registry[name]
    ensures name == ALL
  {}

  /** While `all` is being removed: the hosts still to do are unchanged. */
  ghost predicate Removing(inv: Inv, inv': Inv, todo: set<string>) {
    && inv'.groups == inv.groups && inv'.hosts.Keys == inv.hosts.Keys
    && forall h <- inv.hosts :: inv'.hosts[h] ==
         if h in todo then inv.hosts[h] else inv.hosts[h].(groups := RemoveFirst(inv.hosts[h].groups, ALL))
  }

  lemma RemovingStart(inv: Inv)
    ensures Removing(inv, inv, inv.hosts.Keys)
  {}

  lemma RemovingStep(inv: Inv, inv': Inv, todo: set<string>, h: string)
    requires Removing(inv, inv', todo) && h in todo && h in inv.hosts
    ensures h in inv'.hosts
    ensures var rec := inv'.hosts[h];
            Removing(inv, SetHost(inv', h, rec.(groups := RemoveFirst(rec.groups, ALL))), todo - {h})
  {}

  lemma RemovingDone(inv: Inv, inv': Inv)
    requires Removing(inv, inv', {})
    ensures inv' == WithoutAll(inv)
  {}

  /** While simplifying: those still to do are unchanged, the others have lost their duplicates. */
  ghost predicate Simplifying(inv: Inv, inv': Inv, hosts: set<string>, groups: set<string>) {
    && inv'.hosts.Keys == inv.hosts.Keys
    && inv'.groups.Keys == inv.groups.Keys
    && (forall h <- inv.hosts | h in hosts :: inv'.hosts[h] == inv.hosts[h])
    && (forall g <- inv.groups | g in groups :: inv'.groups[g] == inv.groups[g])
    && (forall h <- inv.hosts | h !in hosts :: inv'.hosts[h].vars == inv.hosts[h].vars &&
         Deduplicated(inv.hosts[h].groups, inv'.hosts[h].groups))
    && (forall g <- inv.groups | g !in groups :: inv'.groups[g] == inv.groups[g].(parents := inv'.groups[g].parents) &&
         Deduplicated(inv.groups[g].parents, inv'.groups[g].parents))
  }

  lemma SimplifyingStart(inv: Inv)
    ensures Simplifying(inv, inv, inv.hosts.Keys, inv.groups.Keys)
  {}

  lemma SimplifyingDone(inv: Inv, inv': Inv)
    requires Simplifying(inv, inv', {}, {})
    ensures Simplified(inv, inv')
  {}

  lemma SimplifyHost(inv: Inv, inv': Inv, hosts: set<string>, groups: set<string>, h: string, names: seq<string>)
    requires Simplifying(inv, inv', hosts, groups) && h in hosts && h in inv.hosts
    requires Deduplicated(inv'.hosts[h].groups, names)
    ensures Simplifying(inv, SetHost(inv', h, inv'.hosts[h].(groups := names)), hosts - {h}, groups)
  {
    hide Deduplicated;
  }

  lemma SimplifyGroup(inv: Inv, inv': Inv, hosts: set<string>, groups: set<string>, g: string, names: seq<string>)
    requires Simplifying(inv, inv', hosts, groups) && g in groups && g in inv.groups
    requires Deduplicated(inv'.groups[g].parents, names)
    ensures Simplifying(inv, SetGroup(inv', g, inv'.groups[g].(parents := names)), hosts, groups - {g})
  {
    hide Deduplicated;
  }

  lemma HangingStart(inv: Inv)
    requires ALL in inv.groups
    ensures Hanging(inv, inv, [], inv.groups.Keys)
  {}

  lemma HangingDone(inv: Inv, inv': Inv, order: seq<string>)
    requires Hanging(inv, inv', order, {})
    ensures HungUnderAll(inv, inv', order)
  {}

  lemma HangingStep(inv: Inv, inv': Inv, order: seq<string>, todo: set<string>, name: string)
    requires Hanging(inv, inv', order, todo) && name in todo && name in inv.groups
    ensures var a, g := inv'.groups[ALL], inv'.groups[name];
            if |g.parents| == 0 && name != ALL then
              Hanging(inv, SetGroup(SetGroup(inv', ALL, a.(children := a.children + [name])), name,
                  g.(parents := g.parents + [ALL])),
                      order + [name], todo - {name})
            else Hanging(inv, inv', order, todo - {name})
  {}

  // ---------- Queries on a validated inventory ----------

  /** All hosts of a group and of the groups below it; the walk keeps no visited set. */
  method GetHosts(group: Group, ghost d: Data) returns (hosts: map<string, Host>)
    requires d.Valid() && d.Registered(group)
    requires InventoryModel.Registered(d.inv) && !Cyclic(Children(d.inv))
    ensures hosts.Keys == HostsOf(d.inv, group.name)
    ensures forall h <- hosts :: h in d.hosts && hosts[h] == d.hosts[h]
    decreases Below(Children(d.inv), group.name)
  {
    hide Stands, GroupStands, HostStands, Links, HostLinks, HostsOf, InventoryModel.Registered, Cyclic, Closed;
    ghost var rec := d.inv.groups[group.name];
    d.ParentLinks(group.name);
    d.LinksClosed();
    hosts := map[];
    HostLinksLength(d.hosts, group.hosts, rec.hosts);
    for i := 0 to |group.hosts|
      invariant hosts.Keys == set h | h in rec.hosts[..i]
      invariant forall h <- hosts :: h in d.hosts && hosts[h] == d.hosts[h]
    {
      var host := group.hosts[i];
      HostLinkAt(d.hosts, group.hosts, rec.hosts, i);
      d.HostInRepr(rec.hosts[i]);
      hosts := hosts[host.name := host];
    }
    LinksLength(d.groups, group.children, rec.children);
    for i := 0 to |group.children|
      invariant hosts.Keys == (set h | h in rec.hosts) + HostsOfAll(d.inv, rec.children[..i])
      invariant forall h <- hosts :: h in d.hosts && hosts[h] == d.hosts[h]
    {
      var child := group.children[i];
      LinkAt(d.groups, group.children, rec.children, i);
      d.InRepr(rec.children[i]);
      BelowShrinks(Children(d.inv), group.name, child.name);
      var found := GetHosts(child, d);
      hosts := hosts + found;
      HostsOfAllSnoc(d.inv, rec.children, i);
    }
    HostsOfGroup(d.inv, group.name);
  }

  ghost function HostsOfAll(inv: Inv, names: seq<string>): set<string> {
    set h | h in inv.hosts && exists c :: c in names && h in HostsOf(inv, c)
  }

  lemma HostsOfAllSnoc(inv: Inv, names: seq<string>, i: nat)
    requires i < |names|
    ensures HostsOfAll(inv, names[..i + 1]) == HostsOfAll(inv, names[..i]) + HostsOf(inv, names[i])
  {
    assert names[..i + 1] == names[..i] + [names[i]];
    forall h | h in HostsOf(inv, names[i]) ensures h in HostsOfAll(inv, names[..i + 1]) {
      assert names[i] in names[..i + 1];
    }
  }

  lemma HostsOfGroup(inv: Inv, g: string)
    requires Closed(Children(inv)) && InventoryModel.Registered(inv) && g in inv.groups
    ensures var rec := inv.groups[g];
            HostsOf(inv, g) == (set h | h in rec.hosts) + HostsOfAll(inv, rec.children[..|rec.children|])
  {
    var rec := inv.groups[g];
    assert rec.children[..|rec.children|] == rec.children;
    forall h ensures h in HostsOf(inv, g) <==> h in (set h | h in rec.hosts) + HostsOfAll(inv, rec.children) {
      HostsOfSplit(inv, g, h);
    }
  }

  lemma HostLinkAt(registry: map<string, Host>, hosts: seq<Host>, names: seq<string>, i: nat)
    requires HostLinks(registry, hosts, names) && i < |hosts|
    ensures |names| == |hosts| && names[i] in registry && hosts[i] == registry[names[i]]
  {}

  lemma HostLinksLength(registry: map<string, Host>, hosts: seq<Host>, names: seq<string>)
    requires HostLinks(registry, hosts, names)
    ensures |names| == |hosts|
  {}

  /** The variables of a group and its ancestors, in a fresh map: nothing stored is changed. */
  method GroupAllVars(group: Group, ghost d: Data) returns (vars: Dict)
    requires d.Valid() && d.Registered(group) && Acyclic(d.inv)
    ensures fresh(vars) && vars.entries == GroupVars(d.inv, group.name)
    decreases Below(Parents(d.inv), group.name)
  {
    hide Stands, GroupStands, HostStands, Links, HostLinks, Cyclic, Closed;
    ghost var rec := d.inv.groups[group.name];
    d.ParentLinks(group.name);
    d.InRepr(group.name);
    LinksLength(d.groups, group.parents, rec.parents);
    vars := new Dict((false, ""));
    for i := 0 to |group.parents|
      invariant fresh(vars) && d.Valid() && vars.entries == ParentVars(d.inv, group.name, i)
    {
      var parent := group.parents[i];
      LinkAt(d.groups, group.parents, rec.parents, i);
      d.InRepr(rec.parents[i]);
      BelowShrinks(Parents(d.inv), group.name, parent.name);
      var above := GroupAllVars(parent, d);
      MergeVars(vars, above.entries);
    }
    MergeVars(vars, group.vars.entries);
  }

  lemma HostVarsUnfold(inv: Inv, h: string)
    requires Acyclic(inv) && InventoryModel.Registered(inv) && h in inv.hosts
    ensures HostGroupVars(inv, h, 0) == map[]
    ensures HostVars(inv, h) == HostGroupVars(inv, h, |inv.hosts[h].groups|) + inv.hosts[h].vars
  {}

  lemma HostGroupVarsUnfold(inv: Inv, h: string, i: nat)
    requires Acyclic(inv) && InventoryModel.Registered(inv) && h in inv.hosts && i < |inv.hosts[h].groups|
    ensures inv.hosts[h].groups[i] in inv.groups
    ensures HostGroupVars(inv, h, i + 1) == HostGroupVars(inv, h, i) + GroupVars(inv, inv.hosts[h].groups[i])
  {
    assert InGroup(inv, h, inv.hosts[h].groups[i]);
  }

  /** The variables of a host, its groups and their ancestors, in a fresh map. */
  method HostAllVars(host: Host, ghost d: Data) returns (vars: Dict)
    requires d.Valid() && d.Known(host) && Acyclic(d.inv) && InventoryModel.Registered(d.inv)
    ensures fresh(vars) && vars.entries == HostVars(d.inv, host.name)
  {
    hide Stands, GroupStands, HostStands, Links, HostLinks, Acyclic, InventoryModel.Registered, HostVars,
        HostGroupVars, GroupVars;
    ghost var rec := d.inv.hosts[host.name];
    d.HostInRepr(host.name);
    HostVarsUnfold(d.inv, host.name);
    LinksLength(d.groups, host.groups, rec.groups);
    vars := new Dict((true, ""));
    for i := 0 to |host.groups|
      invariant fresh(vars) && d.Valid() && vars.entries == HostGroupVars(d.inv, host.name, i)
    {
      LinkAt(d.groups, host.groups, rec.groups, i);
      d.InRepr(rec.groups[i]);
      HostGroupVarsUnfold(d.inv, host.name, i);
      var above := GroupAllVars(host.groups[i], d);
      MergeVars(vars, above.entries);
    }
    MergeVars(vars, host.vars.entries);
  }

  /** The INI builder: the group whose section is open, and the kind of section. */
  class IniState {
    const data: Data
    var group: Group
    var typ: SectionType

    ghost predicate Valid()
      reads this, data, data.Repr
    {
      this !in data.Repr && data.Valid() && data.Registered(group) && group in data.Repr && group.vars in data.Repr
    }

    ghost function State(): ParseState
      reads this, data
    {
      ParseState(data.inv, group.name, typ)
    }

    constructor ()
      ensures Valid() && fresh(data) && fresh(data.Repr)
      ensures State() == START_STATE
    {
      data := new Data();
      group := new Group(ALL);
      typ := HostSection;
      new;
      group.initialized := true;
      data.groups := map[ALL := group];
      data.inv, data.Repr := START_STATE.inv, {group, group.vars};
    }

    method HandleSectionLine(name: string, typ: SectionType)
      requires Valid()
      modifies this, data, data.Repr
      ensures Valid() && fresh(data.Repr - old(data.Repr))
      ensures State() == HandleSection(old(State()), name, typ)
    {
      hide Stands, GroupStands, HostStands, Links, HostLinks;
      group := data.GroupByName(name);
      this.typ := typ;
      if typ == HostSection || typ == ChildSection {
        data.MarkInitialized(group);
      }
    }

    method HandleHostLine(name: string, vars: Vars)
      requires Valid()
      modifies this, data, data.Repr
      ensures Valid() && fresh(data.Repr - old(data.Repr))
      ensures State() == AddHost(old(State()), name, vars)
    {
      hide Stands, GroupStands, HostStands, Links, HostLinks;
      var host := data.AddVarsToHost(name, vars);
      data.AppendGroup(host, group);
      data.AppendHost(group, host);
    }

    method HandleVarLine(name: string, value: string)
      requires Valid()
      modifies this, data, data.Repr
      ensures Valid() && fresh(data.Repr - old(data.Repr))
      ensures State() == AddVar(old(State()), name, value)
    {
      hide Stands, GroupStands, HostStands, Links, HostLinks;
      ghost var g := data.inv.groups[group.name].(vars := data.inv.groups[group.name].vars[name := value]);
      ReleaseGroup(data.Repr, data.groups, data.hosts, data.inv, group.name);
      GroupParts(data.groups, data.hosts, group.name, group, data.inv.groups[group.name]);
      group.vars.entries := group.vars.entries[name := value];
      GroupParts(data.groups, data.hosts, group.name, group, g);
      RestoreGroup(data.Repr, data.groups, data.hosts, data.inv, group.name, g);
      data.inv := SetGroup(data.inv, group.name, g);
    }

    method HandleChildLine(name: string)
      requires Valid()
      modifies this, data, data.Repr
      ensures Valid() && fresh(data.Repr - old(data.Repr))
      ensures State() == AddChild(old(State()), name)
    {
      hide Stands, GroupStands, HostStands, Links, HostLinks;
      var child := data.GroupByName(name);
      data.AppendParent(child, group);
      data.AppendChild(group, child);
    }

    /** One line; `ok` is false on a format error. */
    method HandleLine(line: Line) returns (ok: bool)
      requires Valid()
      modifies this, data, data.Repr
      ensures Valid() && fresh(data.Repr - old(data.Repr))
      ensures InventoryModel.HandleLine(old(State()), line) == if ok then Some(State()) else None
    {
      match line
      case Blank =>
        return true;
      case SectionLine(name, typ) =>
        HandleSectionLine(name, typ);
        return true;
      case DataLine(host, assignment, child) =>
        match typ
        case HostSection =>
          if host.None? { return false; }
          HandleHostLine(host.value.0, host.value.1);
          return true;
        case VarSection =>
          if assignment.None? { return false; }
          HandleVarLine(assignment.value.0, assignment.value.1);
          return true;
        case ChildSection =>
          if child.None? { return false; }
          HandleChildLine(child.value);
          return true;
    }
  }

  /**
   A whole file. It is accepted exactly when every line is well formed, every group but `ungrouped` has a section
   of its own, the parents have no cycle and `all` is nobody's child; and then the object graph is validated.
   */
  method ParseIni(lines: seq<Line>) returns (r: Option<Data>)
    ensures r.Some? <==> ParseLines(lines).Some? && Acceptable(Parsed(lines))
    ensures r.Some? ==> r.value.Valid() && Validated(r.value.inv) && Normalised(Parsed(lines), r.value.inv)
  {
    hide Stands, GroupStands, HostStands, Links, HostLinks, WellBuilt, Acceptable, Validated, Normalised,
        AllInitialized, Cyclic;
    var state := new IniState();
    for i := 0 to |lines|
      invariant state.Valid() && fresh(state) && fresh(state.data) && fresh(state.data.Repr)
      invariant ParseLines(lines[..i]) == Some(state.State())
    {
      assert lines[..i + 1][..i] == lines[..i];
      var ok := state.HandleLine(lines[i]);
      if !ok {
        NoRecovery(lines, i + 1);
        return None;
      }
    }
    assert lines[..|lines|] == lines;
    ParseLinesKeep(lines);
    ghost var inv := state.data.inv;
    var err := state.data.FormatAndValidate();
    AcceptedExactly(inv, state.data.inv);
    return if err.Some? then None else Some(state.data);
  }

  ghost function Parsed(lines: seq<Line>): (inv: Inv)
    requires ParseLines(lines).Some?
    ensures ALL in inv.groups
  {
    ParseLinesKeep(lines);
    ParseLines(lines).value.inv
  }

  /** A format error ends the reading. */
  lemma {:induction false} NoRecovery(lines: seq<Line>, i: nat)
    requires i <= |lines| && ParseLines(lines[..i]).None?
    ensures ParseLines(lines).None?
    decreases |lines| - i
  {
    if i == |lines| {
      assert lines[..i] == lines;
    } else {
      assert lines[..i + 1][..i] == lines[..i];
      NoRecovery(lines, i + 1);
    }
  }
}
