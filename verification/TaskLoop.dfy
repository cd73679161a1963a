/** A task with a loop: its action runs once per item, with the item among the variables it sees. */
module TaskLoop {
  import opened Options
  import opened InventoryModel
  import opened Inventory
  import opened VarsManager
  import Ordering

  const ITEM := "item"
  const NO_VARIABLES := "failed to collect vars"
  const NO_ITEMS := "failed to get loop items"

  /** The variables that an item's action sees: a lookup with the item as the only loop variable. */
  function EnvFor(s: Sources, t: Templar, item: string): Option<Vars> {
    s.(loop := map[ITEM := item]).Lookup(t)
  }

  /** The error of a loop, and the variables that its action has run in, one after the other. */
  datatype Loop = Loop(err: Option<string>, seen: seq<Vars>)

  /**
   What a loop over the items comes to. `run` yields the error of checking the conditions and running the
   action in the given variables.
   */
  function Looped(s: Sources, t: Templar, items: seq<string>, run: Vars -> Option<string>): Loop
    decreases |items|
  {
    if items == [] then Loop(None, [])
    else
      match EnvFor(s, t, items[0])
      case None => Loop(Some(NO_VARIABLES), [])
      case Some(env) =>
        if run(env).Some? then Loop(run(env), [env])
        else
          var rest := Looped(s, t, items[1..], run);
          Loop(rest.err, [env] + rest.seen)
  }

  /** What a task with a loop comes to; `list` yields its items in the variables outside the loop. */
  function Looping(s: Sources, t: Templar, list: Vars -> Option<seq<string>>, run: Vars -> Option<string>): Loop {
    match s.Lookup(t)
    case None => Loop(Some(NO_VARIABLES), [])
    case Some(vars) =>
      match list(vars)
      case None => Loop(Some(NO_ITEMS), [])
      case Some(items) => Looped(s, t, items, run)
  }

  // ---------- What the outcome means ----------

  /** In a loop context the item overrides every other variable of that name. */
  lemma ItemIsSeen(s: Sources, t: Templar, item: string)
    ensures var env := EnvFor(s, t, item); env.Some? ==> ITEM in env.value && env.value[ITEM] == item
  {
    hide Sources.Lookup, Rendered, Magic, Combined;
    var s' := s.(loop := map[ITEM := item]);
    if s'.Lookup(t).Some? { Precedence(t, s', ITEM); }
  }

  /** The item has variables, and the action succeeds in them. */
  predicate Succeeds(s: Sources, t: Templar, item: string, run: Vars -> Option<string>) {
    EnvFor(s, t, item).Some? && run(EnvFor(s, t, item).value).None?
  }

  /** `n` items succeed before the first that does not. */
  ghost predicate FirstFailure(s: Sources, t: Templar, items: seq<string>, run: Vars -> Option<string>, n: nat) {
    && n <= |items|
    && (forall i | 0 <= i < n :: Succeeds(s, t, items[i], run))
    && (n < |items| ==> !Succeeds(s, t, items[n], run))
  }

  /**
   The first item that fails decides: the action has run, in turn, in the variables of every item before it,
   and in its own if it has any; the error is that of its action, or that it has no variables. Without such
   an item the action has run for all, and there is no error.
   */
  lemma {:induction false} LoopExactly(
    s: Sources, t: Templar, items: seq<string>, run: Vars -> Option<string>) returns (n: nat)
    ensures FirstFailure(s, t, items, run, n)
    ensures var r := Looped(s, t, items, run);
      && (forall i | 0 <= i < |r.seen| :: i < |items| && EnvFor(s, t, items[i]) == Some(r.seen[i]))
      && (r.err.None? <==> n == |items|)
      && if n == |items| then |r.seen| == n
         else if EnvFor(s, t, items[n]).None? then |r.seen| == n && r.err == Some(NO_VARIABLES)
         else |r.seen| == n + 1 && r.err == run(r.seen[n])
    decreases |items|
  {
    hide EnvFor;
    if items == [] || !Succeeds(s, t, items[0], run) {
      n := 0;
    } else {
      var m := LoopExactly(s, t, items[1..], run);
      n := m + 1;
      var r, rest := Looped(s, t, items, run), Looped(s, t, items[1..], run);
      assert r.seen == [EnvFor(s, t, items[0]).value] + rest.seen;
      forall i | 0 <= i < n ensures Succeeds(s, t, items[i], run) {
        if i > 0 { assert items[i] == items[1..][i - 1]; }
      }
      forall i | 0 <= i < |r.seen| ensures i < |items| && EnvFor(s, t, items[i]) == Some(r.seen[i]) {
        if i > 0 { assert items[i] == items[1..][i - 1] && r.seen[i] == rest.seen[i - 1]; }
      }
    }
  }

  // ---------- The loop ----------

  lemma LoopEnd(s: Sources, t: Templar, items: seq<string>, run: Vars -> Option<string>)
    ensures Looped(s, t, items[|items|..], run) == Loop(None, [])
  {}

  lemma LoopingCases(s: Sources, t: Templar, list: Vars -> Option<seq<string>>, run: Vars -> Option<string>)
    ensures s.Lookup(t).None? ==> Looping(s, t, list, run) == Loop(Some(NO_VARIABLES), [])
    ensures s.Lookup(t).Some? ==>
      var items := list(s.Lookup(t).value);
      Looping(s, t, list, run) == if items.None? then Loop(Some(NO_ITEMS), []) else Looped(s, t, items.value, run)
  {
    hide Sources.Lookup;
  }

  /** What one item adds to what has been seen. */
  lemma LoopStep(s: Sources, t: Templar, items: seq<string>, run: Vars -> Option<string>, seen: seq<Vars>, n: nat)
    requires n < |items|
    ensures
      var env, rest := EnvFor(s, t, items[n]), Looped(s, t, items[n..], run);
      var next := Looped(s, t, items[n + 1..], run);
      if env.None? then rest == Loop(Some(NO_VARIABLES), [])
      else if run(env.value).Some? then rest == Loop(run(env.value), [env.value])
      else rest.err == next.err && seen + rest.seen == seen + [env.value] + next.seen
  {
    hide EnvFor;
    assert items[n..][0] == items[n] && items[n..][1..] == items[n + 1..];
  }

  /** One item: its context, the variables, the conditions and the action. */
  method RunItem(m: Manager, play: Option<Vars>, host: Host, task: Option<Vars>, item: string,
                 run: Vars -> Option<string>)
    returns (err: Option<string>, env: Option<Vars>)
    requires "all" in m.inventory.groups && Named(m.inventory.groups)
    requires Ordering.Identified(host.groups, NameOf)
    requires host in m.hostLoopVars && m.hostLoopVars[host].Keys <= {ITEM}
    modifies m`hostLoopVars, host
    ensures m.hostLoopVars == old(m.hostLoopVars)[host := map[ITEM := item]]
    ensures multiset(host.groups) == multiset(old(host.groups))
    ensures env == EnvFor(m.Base(play, host, task, old(host.groups)), m.templar, item)
    ensures err == if env.None? then Some(NO_VARIABLES) else run(env.value)
  {
    hide Manager.SourcesOf, Manager.Base, Ordering.Sorted, Ordering.Identified, Sources.Lookup, Named;
    m.SetLoopItem(item, host);
    assert m.hostLoopVars[host] == map[ITEM := item];
    env := m.GetVars(play, host, task);
    err := if env.None? then Some(NO_VARIABLES) else run(env.value);
  }

  /** The items one after the other, until the first error. */
  method RunItems(m: Manager, play: Option<Vars>, host: Host, task: Option<Vars>, items: seq<string>,
                  run: Vars -> Option<string>)
    returns (err: Option<string>, seen: seq<Vars>)
    requires "all" in m.inventory.groups && Named(m.inventory.groups)
    requires Ordering.Identified(host.groups, NameOf)
    requires host in m.hostLoopVars && m.hostLoopVars[host].Keys <= {ITEM}
    modifies m`hostLoopVars, host
    ensures host in m.hostLoopVars && m.hostLoopVars[host := map[]] == old(m.hostLoopVars)[host := map[]]
    ensures multiset(host.groups) == multiset(old(host.groups))
    ensures Loop(err, seen) == Looped(m.Base(play, host, task, old(host.groups)), m.templar, items, run)
  {
    hide Manager.SourcesOf, Manager.Base, Ordering.Sorted, Ordering.Identified, EnvFor, Looped, Named;
    err, seen := None, [];
    ghost var listed := host.groups;
    ghost var s := m.Base(play, host, task, listed);
    assert items[0..] == items;
    LoopEnd(s, m.templar, items, run);
    var n := 0;
    while n < |items|
      invariant host in m.hostLoopVars && m.hostLoopVars[host].Keys <= {ITEM}
      invariant m.hostLoopVars[host := map[]] == old(m.hostLoopVars)[host := map[]]
      invariant multiset(host.groups) == multiset(listed) && Ordering.Identified(host.groups, NameOf)
      invariant s == m.Base(play, host, task, listed)
      invariant n <= |items| && err.None?
      invariant var rest := Looped(s, m.templar, items[n..], run);
        Looped(s, m.templar, items, run) == Loop(rest.err, seen + rest.seen)
    {
      m.BaseInAnyOrder(play, host, task, listed, host.groups);
      LoopStep(s, m.templar, items, run, seen, n);
      var env;
      err, env := RunItem(m, play, host, task, items[n], run);
      Ordering.IdentifiedInAnyOrder(listed, host.groups, NameOf);
      if env.Some? { seen := seen + [env.value]; }
      if err.Some? { return; }
      n := n + 1;
    }
  }

  /** Collects the variables outside the loop and lists the items in them. */
  method ListItems(m: Manager, play: Option<Vars>, host: Host, task: Option<Vars>, list: Vars -> Option<seq<string>>)
    returns (err: Option<string>, items: seq<string>)
    requires "all" in m.inventory.groups && Named(m.inventory.groups)
    requires Ordering.Identified(host.groups, NameOf)
    requires host in m.hostLoopVars && m.hostLoopVars[host] == map[]
    modifies host
    ensures multiset(host.groups) == multiset(old(host.groups))
    ensures match m.Base(play, host, task, old(host.groups)).Lookup(m.templar)
      case None => err == Some(NO_VARIABLES)
      case Some(vars) => if list(vars).None? then err == Some(NO_ITEMS) else err == None && items == list(vars).value
  {
    hide Manager.SourcesOf, Manager.Base, Ordering.Sorted, Ordering.Identified, Sources.Lookup, Named;
    err, items := None, [];
    m.OutsideLoops(play, host, task, host.groups);
    var vars := m.GetVars(play, host, task);
    if vars.None? { return Some(NO_VARIABLES), []; }
    var listed := list(vars.value);
    if listed.None? { return Some(NO_ITEMS), []; }
    items := listed.value;
  }

  /** Lists the items and goes through them, in the context that was opened for the host. */
  method RunListed(m: Manager, play: Option<Vars>, host: Host, task: Option<Vars>,
                   list: Vars -> Option<seq<string>>, run: Vars -> Option<string>)
    returns (err: Option<string>, seen: seq<Vars>)
    requires "all" in m.inventory.groups && Named(m.inventory.groups)
    requires Ordering.Identified(host.groups, NameOf)
    requires host in m.hostLoopVars && m.hostLoopVars[host] == map[]
    modifies m`hostLoopVars, host
    ensures host in m.hostLoopVars && m.hostLoopVars[host := map[]] == old(m.hostLoopVars)[host := map[]]
    ensures multiset(host.groups) == multiset(old(host.groups))
    ensures Loop(err, seen) == Looping(m.Base(play, host, task, old(host.groups)), m.templar, list, run)
  {
    hide Manager.Base, Ordering.Identified, Sources.Lookup, Looped, Looping, Named;
    seen := [];
    ghost var listed := host.groups;
    ghost var s := m.Base(play, host, task, listed);
    LoopingCases(s, m.templar, list, run);
    var items;
    err, items := ListItems(m, play, host, task, list);
    if err.None? {
      Ordering.IdentifiedInAnyOrder(listed, host.groups, NameOf);
      m.BaseInAnyOrder(play, host, task, listed, host.groups);
      err, seen := RunItems(m, play, host, task, items, run);
    }
  }

  /**
   Collects the variables, lists the items, and runs the action for one after the other until it fails.
   Whatever happens, the loop context of this host ends up empty and no other is touched.
   */
  method RunLoop(m: Manager, play: Option<Vars>, host: Host, task: Option<Vars>,
                 list: Vars -> Option<seq<string>>, run: Vars -> Option<string>)
    returns (err: Option<string>, seen: seq<Vars>)
    requires "all" in m.inventory.groups && Named(m.inventory.groups)
    requires Ordering.Identified(host.groups, NameOf)
    modifies m`hostLoopVars, host
    ensures m.hostLoopVars == old(m.hostLoopVars)[host := map[]]
    ensures multiset(host.groups) == multiset(old(host.groups))
    ensures Loop(err, seen) == Looping(m.Base(play, host, task, old(host.groups)), m.templar, list, run)
  {
    hide Manager.Base, Ordering.Identified, Looping, Named;
    m.ResetLoopContext(host);
    err, seen := RunListed(m, play, host, task, list, run);
    m.ResetLoopContext(host);
  }
}
