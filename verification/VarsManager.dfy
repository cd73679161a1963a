/**
 The variables a task sees: layers of increasing precedence, merged one after the other, with the play's and
 the task's own variables rendered in what has been merged so far.
 */
module VarsManager {
  import opened Options
  import opened Ordering
  import opened InventoryModel
  import opened Inventory

  function Over(a: Vars, b: Vars): Vars { a + b }

  /** A copy of `a` overridden by `b`; neither argument changes. */
  method CombineVars(a: Vars, b: Vars) returns (result: Vars)
    ensures result == Over(a, b)
  {
    result := map[];
    var todo := a.Keys;
    while todo != {}
      invariant todo <= a.Keys && result == a - todo
      decreases todo
    {
      var k :| k in todo;
      result := result[k := a[k]];
      todo := todo - {k};
    }
    todo := b.Keys;
    while todo != {}
      invariant todo <= b.Keys && result == a + (b - todo)
      decreases todo
    {
      var k :| k in todo;
      result := result[k := b[k]];
      todo := todo - {k};
    }
  }

  // ---------- Layers ----------

  /** Layers merged from the lowest to the highest. */
  function Combined(layers: seq<Vars>): Vars {
    if layers == [] then map[] else Combined(layers[..|layers| - 1]) + layers[|layers| - 1]
  }

  lemma CombinedSnoc(layers: seq<Vars>, last: Vars)
    ensures Combined(layers + [last]) == Combined(layers) + last
  {
    assert (layers + [last])[..|layers|] == layers;
  }

  /** Layer `i` is the highest that defines `k`. */
  ghost predicate Highest(layers: seq<Vars>, k: string, i: int) {
    0 <= i < |layers| && k in layers[i] && forall j | i < j < |layers| :: k !in layers[j]
  }

  /** A key is defined exactly when some layer defines it, and the highest such layer has its value. */
  lemma {:induction false} HighestWins(layers: seq<Vars>, k: string)
    ensures k in Combined(layers) <==> exists i :: Highest(layers, k, i)
    ensures forall i :: Highest(layers, k, i) ==> k in Combined(layers) && Combined(layers)[k] == layers[i][k]
  {
    if layers != [] {
      var n := |layers| - 1;
      var lower := layers[..n];
      HighestWins(lower, k);
      if k in layers[n] {
        assert Highest(layers, k, n);
      } else {
        forall i ensures Highest(layers, k, i) <==> Highest(lower, k, i) {}
      }
    }
  }

  // ---------- Group variables ----------

  function NameOf(g: Group): string { g.name }

  function VarsOf(groups: seq<Group>): (r: seq<Vars>)
    reads set g <- groups :: g.vars
    ensures |r| == |groups| && forall i | 0 <= i < |r| :: r[i] == groups[i].vars.entries
  {
    if groups == [] then [] else VarsOf(groups[..|groups| - 1]) + [groups[|groups| - 1].vars.entries]
  }

  /** Sorting a slice in place: any arrangement in order of name will do. */
  method SortByName(groups: seq<Group>) returns (sorted: seq<Group>)
    ensures Sorted(sorted, NameOf) && multiset(sorted) == multiset(groups)
  {
    sorted := SortBy(groups, NameOf);
    SortByKeeps(groups, NameOf);
  }

  /** What one entry of the configured precedence contributes: only two entries have an effect. */
  function EntryVars(entry: string, all: Vars, direct: Vars): Vars {
    if entry == "all_inventory" then all else if entry == "groups_inventory" then direct else map[]
  }

  function GroupLayer(precedence: seq<string>, all: Vars, direct: Vars): Vars {
    Combined(seq(|precedence|, i requires 0 <= i < |precedence| => EntryVars(precedence[i], all, direct)))
  }

  lemma GroupLayerSnoc(precedence: seq<string>, entry: string, all: Vars, direct: Vars)
    ensures GroupLayer(precedence + [entry], all, direct)
         == GroupLayer(precedence, all, direct) + EntryVars(entry, all, direct)
  {
    var layers := seq(|precedence|, i requires 0 <= i < |precedence| => EntryVars(precedence[i], all, direct));
    var longer := precedence + [entry];
    CombinedSnoc(layers, EntryVars(entry, all, direct));
    assert seq(|longer|, i requires 0 <= i < |longer| => EntryVars(longer[i], all, direct))
        == layers + [EntryVars(entry, all, direct)];
  }

  lemma GroupLayerNone(all: Vars, direct: Vars)
    ensures GroupLayer([], all, direct) == map[]
  {}

  /** Groups registered under their names are told apart by them, as the sort below needs. */
  lemma RegisteredAreIdentified(d: Data, host: Host)
    requires d.Valid() && d.Known(host)
    ensures Identified(host.groups, NameOf)
  {
    hide Stands, Links;
    d.AllNamed();
    d.HostInRepr(host.name);
    var names := d.inv.hosts[host.name].groups;
    forall x <- host.groups, y <- host.groups | x.name == y.name ensures x == y {
      var i :| 0 <= i < |host.groups| && host.groups[i] == x;
      var j :| 0 <= j < |host.groups| && host.groups[j] == y;
      LinkAt(d.groups, host.groups, names, i);
      LinkAt(d.groups, host.groups, names, j);
    }
  }

  /** Of several direct groups that define a key, the one whose name comes last decides. */
  lemma LastNameDecides(groups: seq<Group>, g: Group, k: string)
    requires Sorted(groups, NameOf) && Identified(groups, NameOf) && g in groups && k in g.vars.entries
    requires forall h <- groups :: k in h.vars.entries ==> Leq(h.name, g.name)
    ensures k in Combined(VarsOf(groups)) && Combined(VarsOf(groups))[k] == g.vars.entries[k]
  {
    hide Leq, Sorted;
    var layers := VarsOf(groups);
    var i :| 0 <= i < |groups| && groups[i] == g;
    var top := HighestFrom(layers, k, i);
    SortedAt(groups, NameOf, i, top);
    LeqAntisymmetric(g.name, groups[top].name);
    assert groups[top] in groups;
    HighestWins(layers, k);
  }

  lemma {:induction false} HighestFrom(layers: seq<Vars>, k: string, i: nat) returns (top: nat)
    requires i < |layers| && k in layers[i]
    ensures i <= top && Highest(layers, k, top)
    decreases |layers| - i
  {
    if j :| i < j < |layers| && k in layers[j] { top := HighestFrom(layers, k, j); } else { top := i; }
  }

  // ---------- Magic variables ----------

  /** Which variables can set a connection attribute; of several that are set, the last one named wins. */
  const MAGIC: map<string, seq<string>> := map[
    "connection" := ["ansible_connection"],
    "module_compression" := ["ansible_module_compression"],
    "shell" := ["ansible_shell_type"],
    "executable" := ["ansible_shell_executable"],
    "remote_addr" := ["ansible_ssh_host", "ansible_host"],
    "remote_user" := ["ansible_ssh_user", "ansible_user"],
    "password" := ["ansible_ssh_pass", "ansible_password"],
    "port" := ["ansible_ssh_port", "ansible_port"],
    "pipelining" := ["ansible_ssh_pipelining", "ansible_pipelining"],
    "timeout" := ["ansible_ssh_timeout", "ansible_timeout"],
    "private_key_file" := ["ansible_ssh_private_key_file", "ansible_private_key_file"],
    "network_os" := ["ansible_network_os"],
    "connection_user" := ["ansible_connection_user"],
    "ssh_executable" := ["ansible_ssh_executable"],
    "ssh_common_args" := ["ansible_ssh_common_args"],
    "sftp_extra_args" := ["ansible_sftp_extra_args"],
    "scp_extra_args" := ["ansible_scp_extra_args"],
    "ssh_extra_args" := ["ansible_ssh_extra_args"],
    "ssh_transfer_method" := ["ansible_ssh_transfer_method"],
    "docker_extra_args" := ["ansible_docker_extra_args"],
    "become" := ["ansible_become"],
    "become_method" := ["ansible_become_method"],
    "become_user" := ["ansible_become_user"],
    "become_pass" := ["ansible_become_password", "ansible_become_pass"],
    "become_exe" := ["ansible_become_exe"],
    "become_flags" := ["ansible_become_flags"]]

  /** The value of the last of `names` that is set. */
  function LastSet(names: seq<string>, src: Vars): Option<string> {
    if names == [] then None
    else
      var last := names[|names| - 1];
      if last in src then Some(src[last]) else LastSet(names[..|names| - 1], src)
  }

  function Magic(mapping: map<string, seq<string>>, src: Vars): Vars {
    map attr | attr in mapping && LastSet(mapping[attr], src).Some? :: LastSet(mapping[attr], src).value
  }

  /** Goes through the mapping in whatever order it is iterated. */
  method SetMagicVars(mapping: map<string, seq<string>>, src: Vars) returns (res: Vars)
    ensures res == Magic(mapping, src)
  {
    res := map[];
    var todo := mapping.Keys;
    while todo != {}
      invariant todo <= mapping.Keys && res == Magic(mapping, src) - todo
      decreases todo
    {
      var attr :| attr in todo;
      ghost var before := res;
      var names := mapping[attr];
      for i := 0 to |names|
        invariant res == match LastSet(names[..i], src) case None => before case Some(v) => before[attr := v]
      {
        assert names[..i + 1][..i] == names[..i];
        if names[i] in src { res := res[attr := src[names[i]]]; }
      }
      assert names[..|names|] == names;
      todo := todo - {attr};
    }
  }

  /** An attribute is set exactly when one of its variables is, from the last of those. */
  lemma {:induction false} LastSetExactly(names: seq<string>, src: Vars)
    ensures LastSet(names, src).None? <==> forall n <- names :: n !in src
    ensures forall i | 0 <= i < |names| && names[i] in src && (forall j | i < j < |names| :: names[j] !in src)
      :: LastSet(names, src) == Some(src[names[i]])
  {
    if names != [] {
      var n := |names| - 1;
      var others := names[..n];
      LastSetExactly(others, src);
      assert names == others + [names[n]];
      if names[n] !in src {
        forall i | 0 <= i < n && names[i] in src && (forall j | i < j < |names| :: names[j] !in src)
          ensures LastSet(others, src) == Some(src[names[i]])
        {
          assert others[i] == names[i];
          forall j | i < j < n ensures others[j] !in src { assert others[j] == names[j]; }
        }
      }
    }
  }

  // ---------- Rendering ----------

  /** The template engine: which texts are templates, and what a template yields in an environment. */
  datatype Templar = Templar(isTemplate: string -> bool, template: (string, Vars) -> Option<string>) {
    function Render(text: string, env: Vars): Option<string> {
      if isTemplate(text) then template(text, env) else Some(text)
    }
  }

  function Rendered(t: Templar, templates: Vars, env: Vars): Option<Vars> {
    if exists k <- templates :: t.Render(templates[k], env).None? then None
    else Some(map k | k in templates :: t.Render(templates[k], env).value)
  }

  /** Renders the variables in whatever order they are iterated and gives up at the first failure. */
  method TemplateVarsTemplates(t: Templar, templates: Vars, env: Vars) returns (templated: Option<Vars>)
    ensures templated == Rendered(t, templates, env)
  {
    var done: Vars := map[];
    var todo := templates.Keys;
    while todo != {}
      invariant todo <= templates.Keys && done.Keys == templates.Keys - todo
      invariant forall k <- done :: t.Render(templates[k], env) == Some(done[k])
      decreases todo
    {
      var k :| k in todo;
      var text := templates[k];
      if t.isTemplate(text) {
        var r := t.template(text, env);
        if r.None? {
          assert k in templates && t.Render(templates[k], env).None?;
          return None;
        }
        done := done[k := r.value];
      } else {
        done := done[k := text];
      }
      todo := todo - {k};
    }
    assert forall k <- templates :: k in done;
    assert done == map k | k in templates :: t.Render(templates[k], env).value;
    return Some(done);
  }

  // ---------- All layers together ----------

  /** Everything that goes into a lookup, the play's and the task's variables not yet rendered. */
  datatype Sources = Sources(group: Vars, host: Vars, facts: Vars, play: Vars, task: Vars,
    included: Vars, setFact: Vars, extra: Vars, loop: Vars)
  {
    /** What is merged when the play's variables are rendered. */
    function PlayEnv(): Vars { Over(Over(Over(group, host), facts), extra) }

    /** What is merged when the task's variables are rendered. */
    function TaskEnv(play: Vars): Vars { Over(Over(PlayEnv(), play), extra) }

    /** What is merged when the task's variables are in, early extra variables included. */
    function UpToTask(t: Templar): Option<Vars> {
      match Rendered(t, play, PlayEnv())
      case None => None
      case Some(p) =>
        match Rendered(t, task, TaskEnv(p))
        case None => None
        case Some(r) => Some(Over(TaskEnv(p), r))
    }

    /** The layers below the magic variables, once the play and the task are rendered. */
    function Layers(play: Vars, task: Vars): seq<Vars> {
      [group, host, facts, play, task, included, setFact, extra]
    }

    function AllLayers(play: Vars, task: Vars): seq<Vars> {
      Layers(play, task) + [Magic(MAGIC, Combined(Layers(play, task))), loop]
    }

    function Lookup(t: Templar): Option<Vars> {
      match Rendered(t, play, PlayEnv())
      case None => None
      case Some(p) =>
        match Rendered(t, task, TaskEnv(p))
        case None => None
        case Some(r) => Some(Combined(AllLayers(p, r)))
    }
  }

  lemma CombinedTwo(layers: seq<Vars>, a: Vars, b: Vars)
    ensures Combined(layers + [a, b]) == Combined(layers) + a + b
  {
    hide Combined;
    assert layers + [a, b] == layers + [a] + [b];
    CombinedSnoc(layers, a);
    CombinedSnoc(layers + [a], b);
  }

  lemma CombinedEight(a: Vars, b: Vars, c: Vars, d: Vars, e: Vars, f: Vars, g: Vars, h: Vars)
    ensures Combined([a, b, c, d, e, f, g, h]) == a + b + c + d + e + f + g + h
  {
    hide Combined;
    assert Combined([]) == map[] by { CombinedNone(); }
    CombinedTwo([], a, b);
    assert [] + [a, b] == [a, b];
    assert [a, b] + [c, d] == [a, b, c, d];
    assert [a, b, c, d] + [e, f] == [a, b, c, d, e, f];
    assert [a, b, c, d, e, f] + [g, h] == [a, b, c, d, e, f, g, h];
    CombinedTwo([a, b], c, d);
    CombinedTwo([a, b, c, d], e, f);
    CombinedTwo([a, b, c, d, e, f], g, h);
    assert map[] + a == a;
  }

  lemma CombinedNone()
    ensures Combined([]) == map[]
  {}

  /** The two early passes of the extra variables leave no trace once they are merged last. */
  lemma EarlyExtraVanishes(s: Sources, play: Vars, task: Vars)
    ensures s.TaskEnv(play) + task + s.included + s.setFact + s.extra == Combined(s.Layers(play, task))
  {
    hide Combined;
    CombinedEight(s.group, s.host, s.facts, play, task, s.included, s.setFact, s.extra);
    Absorb(s.group + s.host + s.facts, s.extra, play, task, s.included, s.setFact);
  }

  /** The result put together pass by pass, the way the manager does it. */
  lemma PassByPass(t: Templar, s: Sources)
    ensures s.Lookup(t) == match s.UpToTask(t)
      case None => None
      case Some(env) =>
        var base := Over(Over(Over(env, s.included), s.setFact), s.extra);
        Some(Over(Over(base, Magic(MAGIC, base)), s.loop))
  {
    hide Rendered, Magic, Combined;
    match Rendered(t, s.play, s.PlayEnv())
    case None =>
    case Some(play) =>
      match Rendered(t, s.task, s.TaskEnv(play))
      case None =>
      case Some(task) =>
        EarlyExtraVanishes(s, play, task);
        CombinedTwo(s.Layers(play, task), Magic(MAGIC, Combined(s.Layers(play, task))), s.loop);
  }

  lemma Associative(a: Vars, b: Vars, c: Vars)
    ensures a + b + c == a + (b + c)
  {}

  lemma Overridden(low: Vars, extra: Vars, mid: Vars)
    ensures low + extra + mid + extra == low + mid + extra
  {}

  lemma Absorb(low: Vars, extra: Vars, a: Vars, b: Vars, c: Vars, d: Vars)
    ensures low + extra + a + extra + b + c + d + extra == low + a + b + c + d + extra
  {
    Overridden(low, extra, a);
    var first := low + extra + a + extra;
    Associative(first, b, c);
    Associative(first, b + c, d);
    Associative(low + a, b, c);
    Associative(low + a, b + c, d);
    Overridden(low + a, extra, b + c + d);
  }

  /** Peels the two highest layers off. */
  lemma TopTwo(layers: seq<Vars>, a: Vars, b: Vars, k: string)
    ensures
      var all := Combined(layers + [a, b]);
      if k in b then k in all && all[k] == b[k]
      else if k in a then k in all && all[k] == a[k]
      else (k in all <==> k in Combined(layers)) && (k in all ==> all[k] == Combined(layers)[k])
  {
    CombinedTwo(layers, a, b);
  }

  lemma TopTen(a: Vars, b: Vars, c: Vars, d: Vars, e: Vars, f: Vars, g: Vars, h: Vars, i: Vars, j: Vars, k: string)
    ensures
      var all := Combined([a, b, c, d, e, f, g, h, i, j]);
      var found := k in all;
      if k in j then found && all[k] == j[k]
      else if k in i then found && all[k] == i[k]
      else if k in h then found && all[k] == h[k]
      else if k in g then found && all[k] == g[k]
      else if k in f then found && all[k] == f[k]
      else if k in e then found && all[k] == e[k]
      else if k in d then found && all[k] == d[k]
      else if k in c then found && all[k] == c[k]
      else if k in b then found && all[k] == b[k]
      else if k in a then found && all[k] == a[k]
      else !found
  {
    hide Combined;
    CombinedNone();
    assert [] + [a, b] == [a, b];
    assert [a, b] + [c, d] == [a, b, c, d];
    assert [a, b, c, d] + [e, f] == [a, b, c, d, e, f];
    assert [a, b, c, d, e, f] + [g, h] == [a, b, c, d, e, f, g, h];
    assert [a, b, c, d, e, f, g, h] + [i, j] == [a, b, c, d, e, f, g, h, i, j];
    TopTwo([], a, b, k);
    TopTwo([a, b], c, d, k);
    TopTwo([a, b, c, d], e, f, k);
    TopTwo([a, b, c, d, e, f], g, h, k);
    TopTwo([a, b, c, d, e, f, g, h], i, j, k);
  }

  /**
   Which layer a looked-up key comes from, from the highest precedence down: loop, magic, extra, set_fact,
   include, task, play, facts, host, group; a key that none of them defines is not there.
   */
  lemma Precedence(t: Templar, s: Sources, k: string)
    requires s.Lookup(t).Some?
    ensures
      var vars := s.Lookup(t).value;
      var play := Rendered(t, s.play, s.PlayEnv()).value;
      var task := Rendered(t, s.task, s.TaskEnv(play)).value;
      var magic := Magic(MAGIC, Combined(s.Layers(play, task)));
      var found := k in vars;
      if k in s.loop then found && vars[k] == s.loop[k]
      else if k in magic then found && vars[k] == magic[k]
      else if k in s.extra then found && vars[k] == s.extra[k]
      else if k in s.setFact then found && vars[k] == s.setFact[k]
      else if k in s.included then found && vars[k] == s.included[k]
      else if k in task then found && vars[k] == task[k]
      else if k in play then found && vars[k] == play[k]
      else if k in s.facts then found && vars[k] == s.facts[k]
      else if k in s.host then found && vars[k] == s.host[k]
      else if k in s.group then found && vars[k] == s.group[k]
      else !found
  {
    hide Rendered, Magic, Combined;
    var play := Rendered(t, s.play, s.PlayEnv()).value;
    var task := Rendered(t, s.task, s.TaskEnv(play)).value;
    var magic := Magic(MAGIC, Combined(s.Layers(play, task)));
    var all := s.AllLayers(play, task);
    assert all == [s.group, s.host, s.facts, play, task, s.included, s.setFact, s.extra, magic, s.loop];
    assert s.Lookup(t) == Some(Combined(all));
    TopTen(s.group, s.host, s.facts, play, task, s.included, s.setFact, s.extra, magic, s.loop, k);
  }

  // ---------- The manager ----------

  /** What an empty table is as a value. */
  const EMPTY_TABLE := "{}"

  class Manager {
    const inventory: Data
    const templar: Templar
    const precedence: seq<string>
    const injectFacts: bool
    var extraVars: Vars
    var hostVars: map<Host, Vars>
    var hostFacts: map<Host, Vars>
    var hostNonPersistentFacts: map<Host, Vars>
    var hostLoopVars: map<Host, Vars>

    constructor (inventory: Data, templar: Templar, precedence: seq<string>, injectFacts: bool)
      ensures this.inventory == inventory && this.templar == templar
      ensures this.precedence == precedence && this.injectFacts == injectFacts
      ensures extraVars == map[] && hostVars == map[] && hostFacts == map[]
      ensures hostNonPersistentFacts == map[] && hostLoopVars == map[]
    {
      this.inventory, this.templar, this.precedence, this.injectFacts := inventory, templar, precedence, injectFacts;
      extraVars, hostVars, hostFacts, hostNonPersistentFacts, hostLoopVars := map[], map[], map[], map[], map[];
    }

    function Of(table: map<Host, Vars>, host: Host): Vars {
      if host in table then table[host] else map[]
    }

    /** The facts of a host, or only its local facts where facts are not injected as variables. */
    function FactLayer(host: Host): Vars
      reads this`hostFacts
    {
      if host !in hostFacts then map[]
      else if injectFacts then hostFacts[host]
      else
        var facts := hostFacts[host];
        map["ansible_local" := if "ansible_local" in facts then facts["ansible_local"] else EMPTY_TABLE]
    }

    /** The group variables of a host whose groups are in order. */
    function GroupsOf(host: Host): Vars
      requires "all" in inventory.groups
      reads inventory, inventory.groups["all"].vars, host, set g <- host.groups :: g.vars
    {
      GroupLayer(precedence, inventory.groups["all"].vars.entries, Combined(VarsOf(host.groups)))
    }

    function SourcesOf(play: Option<Vars>, host: Host?, task: Option<Vars>): Sources
      requires "all" in inventory.groups
      reads this, inventory, inventory.groups["all"].vars
      reads if host == null then {} else {host, host.vars} + set g <- host.groups :: g.vars
    {
      var p := if play.Some? then play.value else map[];
      var r := if task.Some? then task.value else map[];
      if host == null then Sources(map[], map[], map[], p, r, map[], map[], extraVars, map[])
      else Sources(GroupsOf(host), host.vars.entries, FactLayer(host), p, r,
        Of(hostVars, host), Of(hostNonPersistentFacts, host), extraVars, Of(hostLoopVars, host))
    }

    /**
     The sources for a host that lists its groups in some order, outside any loop: the list counts only once
     it is sorted.
     */
    function Base(play: Option<Vars>, host: Host, task: Option<Vars>, listed: seq<Group>): Sources
      requires "all" in inventory.groups
      reads `extraVars, `hostVars, `hostFacts, `hostNonPersistentFacts
      reads inventory, inventory.groups["all"].vars, host.vars, set g <- listed :: g.vars
    {
      SortByMembers(listed, NameOf);
      Sources(
        GroupLayer(precedence, inventory.groups["all"].vars.entries, Combined(VarsOf(SortBy(listed, NameOf)))),
        host.vars.entries, FactLayer(host),
        if play.Some? then play.value else map[], if task.Some? then task.value else map[],
        Of(hostVars, host), Of(hostNonPersistentFacts, host), extraVars, map[])
    }

    lemma OutsideLoops(play: Option<Vars>, host: Host, task: Option<Vars>, listed: seq<Group>)
      requires "all" in inventory.groups
      ensures var s := Base(play, host, task, listed); s.(loop := map[]) == s
    {
      hide Combined, VarsOf, GroupLayer;
    }

    /** The order in which a host lists its groups makes no difference to what is looked up for it. */
    lemma BaseInAnyOrder(play: Option<Vars>, host: Host, task: Option<Vars>, a: seq<Group>, b: seq<Group>)
      requires "all" in inventory.groups && multiset(a) == multiset(b) && Identified(a, NameOf)
      ensures Base(play, host, task, a) == Base(play, host, task, b)
    {
      hide Combined, VarsOf, GroupLayer;
      SortByInAnyOrder(a, b, NameOf);
    }

    /** Once the groups are sorted in place, the sources are those of the list they were sorted from. */
    lemma SortedInPlace(play: Option<Vars>, host: Host, task: Option<Vars>, listed: seq<Group>)
      requires "all" in inventory.groups && multiset(host.groups) == multiset(listed)
      requires Sorted(host.groups, NameOf) && Identified(listed, NameOf)
      ensures SourcesOf(play, host, task) == Base(play, host, task, listed).(loop := Of(hostLoopVars, host))
    {
      hide Combined, VarsOf, GroupLayer, Sorted, Identified;
      SortedIsSortBy(listed, host.groups, NameOf);
    }

    /** Finds the group called `all` by going through the registered groups in any order. */
    method FindAll() returns (found: Group)
      requires "all" in inventory.groups && Named(inventory.groups)
      ensures found == inventory.groups["all"]
    {
      var group: Group? := null;
      var todo := inventory.groups.Keys;
      while todo != {}
        invariant todo <= inventory.groups.Keys
        invariant "all" in todo || group == inventory.groups["all"]
        decreases todo
      {
        var n :| n in todo;
        if inventory.groups[n].name == "all" { group := inventory.groups[n]; }
        todo := todo - {n};
      }
      return group;
    }

    /** Merges the variables of the direct groups in the order they are listed in. */
    method DirectVars(host: Host) returns (vars: Vars)
      ensures vars == Combined(VarsOf(host.groups))
    {
      vars := map[];
      ghost var layers := VarsOf(host.groups);
      for i := 0 to |host.groups|
        invariant vars == Combined(layers[..i])
      {
        assert layers[..i + 1] == layers[..i] + [layers[i]];
        CombinedSnoc(layers[..i], layers[i]);
        vars := CombineVars(vars, host.groups[i].vars.entries);
      }
      assert layers[..|layers|] == layers;
    }

    /** Merges what each entry of the configured precedence asks for. */
    method MergeByPrecedence(all: Vars, host: Host, base: Vars) returns (vars: Vars)
      ensures vars == Over(base, GroupLayer(precedence, all, Combined(VarsOf(host.groups))))
    {
      hide Combined, VarsOf, GroupLayer;
      vars := base;
      ghost var direct := Combined(VarsOf(host.groups));
      GroupLayerNone(all, direct);
      assert base + map[] == base;
      assert precedence[..0] == [];
      for i := 0 to |precedence|
        invariant vars == base + GroupLayer(precedence[..i], all, direct)
      {
        var entry := precedence[i];
        assert precedence[..i + 1] == precedence[..i] + [entry];
        GroupLayerSnoc(precedence[..i], entry, all, direct);
        Associative(base, GroupLayer(precedence[..i], all, direct), EntryVars(entry, all, direct));
        if entry == "all_inventory" {
          vars := CombineVars(vars, all);
        } else if entry == "groups_inventory" {
          var d := DirectVars(host);
          vars := CombineVars(vars, d);
        } else {
          assert vars + map[] == vars;
        }
      }
      assert precedence[..|precedence|] == precedence;
    }

    /** Sorts the groups of the host in place and merges their variables. */
    method GroupVars(host: Host, base: Vars) returns (vars: Vars)
      requires "all" in inventory.groups && Named(inventory.groups)
      modifies host`groups
      ensures Sorted(host.groups, NameOf) && multiset(host.groups) == multiset(old(host.groups))
      ensures vars == Over(base, GroupsOf(host))
    {
      hide Combined, Sorted, VarsOf, GroupLayer;
      var all := FindAll();
      host.groups := SortByName(host.groups);
      vars := MergeByPrecedence(all.vars.entries, host, base);
    }

    /** Renders variables of the play or the task in what has been merged so far and merges them. */
    method TemplatedVars(templates: Option<Vars>, base: Vars) returns (vars: Option<Vars>)
      ensures var rendered := Rendered(templar, if templates.Some? then templates.value else map[], base);
        vars == if rendered.Some? then Some(Over(base, rendered.value)) else None
    {
      if templates.None? {
        assert base + map[] == base;
        return Some(base);
      }
      var rendered := TemplateVarsTemplates(templar, templates.value, base);
      if rendered.None? { return None; }
      var merged := CombineVars(base, rendered.value);
      return Some(merged);
    }

    /** Merges what is set for the host before the play's variables. */
    method HostLayers(host: Host, base: Vars) returns (vars: Vars)
      ensures vars == Over(Over(base, host.vars.entries), FactLayer(host))
    {
      vars := CombineVars(base, host.vars.entries);
      if host in hostFacts {
        var facts := hostFacts[host];
        if injectFacts {
          vars := CombineVars(vars, facts);
        } else {
          var local := if "ansible_local" in facts then facts["ansible_local"] else EMPTY_TABLE;
          vars := CombineVars(vars, map["ansible_local" := local]);
        }
      }
    }

    /** What lies below the variables of the play. */
    method LowLayers(host: Host?) returns (vars: Vars)
      requires "all" in inventory.groups && Named(inventory.groups)
      modifies if host == null then {} else {host}
      ensures host != null ==> Sorted(host.groups, NameOf) && multiset(host.groups) == multiset(old(host.groups))
      ensures var s := SourcesOf(None, host, None); vars == Over(Over(s.group, s.host), s.facts)
    {
      hide GroupLayer, Sorted, Combined, VarsOf;
      vars := map[];
      if host != null {
        vars := GroupVars(host, vars);
        vars := HostLayers(host, vars);
        assert map[] + GroupsOf(host) == GroupsOf(host);
      }
    }

    method IncludeVars(host: Host?, base: Vars) returns (vars: Vars)
      requires "all" in inventory.groups
      ensures var s := SourcesOf(None, host, None); vars == Over(Over(base, s.included), s.setFact)
    {
      hide GroupLayer, Combined, VarsOf;
      vars := base;
      if host != null {
        if host in hostVars { vars := CombineVars(vars, hostVars[host]); }
        if host in hostNonPersistentFacts { vars := CombineVars(vars, hostNonPersistentFacts[host]); }
      }
    }

    method LoopVars(host: Host?, base: Vars) returns (vars: Vars)
      requires "all" in inventory.groups
      ensures vars == Over(base, SourcesOf(None, host, None).loop)
    {
      hide GroupLayer, Combined, VarsOf;
      vars := base;
      if host != null {
        vars := CombineVars(vars, if host in hostLoopVars then hostLoopVars[host] else map[]);
      }
    }

    /** The play and the task only fill in their own layers. */
    lemma OnlyTheirLayers(play: Option<Vars>, host: Host?, task: Option<Vars>)
      requires "all" in inventory.groups
      ensures SourcesOf(play, host, task) == SourcesOf(None, host, None).(
        play := if play.Some? then play.value else map[],
        task := if task.Some? then task.value else map[])
      ensures SourcesOf(play, host, task).extra == extraVars
    {
      hide GroupLayer, Combined, VarsOf;
    }

    /** From the low layers to the variables of the task. */
    method RenderedLayers(play: Option<Vars>, task: Option<Vars>, low: Vars,
        ghost s: Sources) returns (vars: Option<Vars>)
      requires low == Over(Over(s.group, s.host), s.facts) && s.extra == extraVars
      requires s.play == if play.Some? then play.value else map[]
      requires s.task == if task.Some? then task.value else map[]
      ensures vars == s.UpToTask(templar)
    {
      hide Over, Rendered;
      var all := CombineVars(low, extraVars);
      vars := TemplatedVars(play, all);
      if vars.Some? {
        all := CombineVars(vars.value, extraVars);
        vars := TemplatedVars(task, all);
      }
    }

    /** Merges and renders as far as the variables of the task. */
    method UpToTask(play: Option<Vars>, host: Host?, task: Option<Vars>) returns (vars: Option<Vars>)
      requires "all" in inventory.groups && Named(inventory.groups)
      modifies if host == null then {} else {host}
      ensures host != null ==> Sorted(host.groups, NameOf) && multiset(host.groups) == multiset(old(host.groups))
      ensures vars == SourcesOf(play, host, task).UpToTask(templar)
    {
      hide Over, Manager.SourcesOf, GroupLayer, Sorted, VarsOf, Rendered, Named, Sources.UpToTask;
      var low := LowLayers(host);
      OnlyTheirLayers(play, host, task);
      vars := RenderedLayers(play, task, low, SourcesOf(play, host, task));
    }

    /** From the variables of the task to the end. */
    method HighLayers(host: Host?, base: Vars) returns (vars: Vars)
      requires "all" in inventory.groups
      ensures var s := SourcesOf(None, host, None);
        var layered := Over(Over(Over(base, s.included), s.setFact), extraVars);
        vars == Over(Over(layered, Magic(MAGIC, layered)), s.loop)
    {
      hide Over, Magic, Manager.SourcesOf;
      vars := IncludeVars(host, base);
      vars := CombineVars(vars, extraVars);
      var magic := SetMagicVars(MAGIC, vars);
      vars := CombineVars(vars, magic);
      vars := LoopVars(host, vars);
    }

    /**
     The variables for a play, a host and a task, each of which may be missing; nothing where a template
     fails. Only the order of the host's groups changes.
     */
    method GetVars(play: Option<Vars>, host: Host?, task: Option<Vars>) returns (vars: Option<Vars>)
      requires "all" in inventory.groups && Named(inventory.groups)
      modifies if host == null then {} else {host}
      ensures host != null ==> Sorted(host.groups, NameOf) && multiset(host.groups) == multiset(old(host.groups))
      ensures vars == SourcesOf(play, host, task).Lookup(templar)
      ensures host != null && Identified(old(host.groups), NameOf) ==>
        vars == Base(play, host, task, old(host.groups)).(loop := Of(hostLoopVars, host)).Lookup(templar)
    {
      hide Over, Identified, Manager.Base, Manager.SourcesOf, GroupLayer, Sorted, VarsOf, Magic, Named,
          Sources.Lookup, Sources.UpToTask;
      vars := UpToTask(play, host, task);
      PassByPass(templar, SourcesOf(play, host, task));
      OnlyTheirLayers(play, host, task);
      if vars.Some? {
        var all := HighLayers(host, vars.value);
        vars := Some(all);
      }
      if host != null && Identified(old(host.groups), NameOf) {
        SortedInPlace(play, host, task, old(host.groups));
      }
    }

    method ResetLoopContext(host: Host)
      modifies this`hostLoopVars
      ensures hostLoopVars == old(hostLoopVars)[host := map[]]
    {
      hostLoopVars := hostLoopVars[host := map[]];
    }

    /** A loop context must have been opened for the host. */
    method SetLoopItem(item: string, host: Host)
      requires host in hostLoopVars
      modifies this`hostLoopVars
      ensures hostLoopVars == old(hostLoopVars)[host := old(hostLoopVars)[host]["item" := item]]
    {
      hostLoopVars := hostLoopVars[host := hostLoopVars[host]["item" := item]];
    }
  }
}
