/** The enabled plugins of a profile, and the plugins it holds. */
module Profiles {
  import opened Bytes
  import opened ConfigModel
  import opened ConfigTheorems
  import opened Configs
  import opened Lists
  import opened Variants

  const ENABLED := "EnabledPlugins"

  /** The stored list, and the names of the plugins that are held. */
  datatype View = View(enabled: seq<string>, held: seq<string>)

  datatype Op = Enable(name: string) | Disable(name: string) | Load

  /** The names that the plugin manager can provide, in order. */
  function Loadable(list: seq<string>, available: set<string>): seq<string> {
    if list == [] then []
    else (if list[0] in available then [list[0]] else []) + Loadable(list[1..], available)
  }

  function Step(v: View, op: Op, available: set<string>): View {
    match op
    case Enable(name) =>
      if name in v.enabled then v
      else View(v.enabled + [name], if name in available then v.held + [name] else v.held)
    case Disable(name) =>
      if name !in v.enabled then v else View(Without(v.enabled, name), Without(v.held, name))
    case Load => View(v.enabled, Loadable(v.enabled, available))
  }

  function Run(v: View, ops: seq<Op>, available: set<string>): View
    decreases ops
  {
    if ops == [] then v else Run(Step(v, ops[0], available), ops[1..], available)
  }

  ghost predicate Agrees(v: View, available: set<string>) {
    v.held == Loadable(v.enabled, available)
  }

  lemma {:induction false} LoadableSnoc(list: seq<string>, name: string, available: set<string>)
    ensures Loadable(list + [name], available) == Loadable(list, available) + if name in available then [name] else []
  {
    if list == [] {
      assert list + [name] == [name];
      assert [name][1..] == [];
    } else {
      LoadableSnoc(list[1..], name, available);
      assert (list + [name])[1..] == list[1..] + [name];
    }
  }

  lemma {:induction false} LoadableWithout(list: seq<string>, name: string, available: set<string>)
    ensures Loadable(Without(list, name), available) == Without(Loadable(list, available), name)
  {
    if list != [] {
      var rest := Loadable(list[1..], available);
      LoadableWithout(list[1..], name, available);
      if list[0] !in available {
        assert [] + rest == rest;
        if list[0] == name {
          LoadableMembers(list[1..], available);
          NotThere(rest, name);
        }
      } else {
        assert ([list[0]] + rest)[1..] == rest;
      }
    }
  }

  lemma {:induction false} LoadableMembers(list: seq<string>, available: set<string>)
    ensures forall n <- Loadable(list, available) :: n in available && n in list
  {
    if list != [] {
      LoadableMembers(list[1..], available);
    }
  }

  lemma StepAgrees(v: View, op: Op, available: set<string>)
    requires Agrees(v, available)
    ensures Agrees(Step(v, op, available), available)
    ensures Distinct(v.enabled) ==> Distinct(Step(v, op, available).enabled)
  {
    match op
    case Enable(name) => LoadableSnoc(v.enabled, name, available);
    case Disable(name) =>
      LoadableWithout(v.enabled, name, available);
      if Distinct(v.enabled) {
        WithoutKeepsDistinct(v.enabled, name);
      }
    case Load =>
  }

  /** Once loaded, the held plugins are the loadable enabled ones, in order, whatever is enabled or disabled later. */
  lemma {:induction false} HeldAgreesWithEnabled(v: View, ops: seq<Op>, available: set<string>)
    requires Agrees(v, available)
    ensures Agrees(Run(v, ops, available), available)
    ensures Distinct(v.enabled) ==> Distinct(Run(v, ops, available).enabled)
    decreases ops
  {
    if ops != [] {
      StepAgrees(v, ops[0], available);
      HeldAgreesWithEnabled(Step(v, ops[0], available), ops[1..], available);
    }
  }

  lemma LoadEstablishesAgreement(v: View, available: set<string>)
    ensures Agrees(Step(v, Load, available), available)
  {
  }

  /** Wherever a profile starts from, its first `Load` sets it right for good. */
  lemma AgreesAfterLoad(v: View, before: seq<Op>, ops: seq<Op>, available: set<string>)
    ensures Agrees(Run(v, before + [Load] + ops, available), available)
    decreases before
  {
    var all := before + [Load] + ops;
    if before == [] {
      assert all == [Load] + ops && all[1..] == ops;
      LoadEstablishesAgreement(v, available);
      HeldAgreesWithEnabled(Step(v, Load, available), ops, available);
    } else {
      assert all[0] == before[0] && all[1..] == before[1..] + [Load] + ops;
      AgreesAfterLoad(Step(v, before[0], available), before[1..], ops, available);
    }
  }

  // ---- what is enabled -------------------------------------------------------------------------

  ghost predicate RemovedAt(before: seq<string>, after: seq<string>, name: string, i: nat) {
    i < |before| && before[i] == name && name !in before[..i] && after == before[..i] + before[i + 1..]
  }

  /** `after` is `before` without one occurrence of the name, the first; nothing else moves. */
  ghost predicate FirstRemoved(before: seq<string>, after: seq<string>, name: string) {
    exists i: nat :: RemovedAt(before, after, name, i)
  }

  /** A new name is appended, to the held plugins only if it is available; a known one changes nothing. */
  lemma EnablingAppends(v: View, name: string, available: set<string>)
    ensures var v' := Step(v, Enable(name), available);
            if name in v.enabled then v' == v
            else v'.enabled == v.enabled + [name] && v'.held == v.held + if name in available then [name] else []
  {
    assert v.held + [] == v.held;
  }

  /** The first occurrence of the name goes from both lists; nothing happens to a name that is not enabled. */
  lemma DisablingRemoves(v: View, name: string, available: set<string>)
    ensures var v' := Step(v, Disable(name), available);
            if name !in v.enabled then v' == v
            else
              && FirstRemoved(v.enabled, v'.enabled, name)
              && multiset(v'.enabled) == multiset(v.enabled) - multiset{name}
              && if name in v.held then FirstRemoved(v.held, v'.held, name) else v'.held == v.held
  {
    if name in v.enabled {
      FirstIsRemoved(v.enabled, name);
      OneIsRemoved(v.enabled, name);
      if name in v.held {
        FirstIsRemoved(v.held, name);
      } else {
        NotThere(v.held, name);
      }
    }
  }

  lemma FirstIsRemoved(list: seq<string>, name: string)
    requires name in list
    ensures FirstRemoved(list, Without(list, name), name)
  {
    var i := FirstPlace(list, name);
    WithoutFirst(list, name, i);
    assert RemovedAt(list, Without(list, name), name, i);
  }

  lemma {:induction false} OneIsRemoved(list: seq<string>, name: string)
    requires name in list
    ensures multiset(Without(list, name)) == multiset(list) - multiset{name}
  {
    var head, tail := list[0], list[1..];
    assert list == [head] + tail;
    if head != name {
      OneIsRemoved(tail, name);
    }
  }

  ghost predicate LastEnablesAt(ops: seq<Op>, name: string, i: nat) {
    i < |ops| && ops[i] == Enable(name) && Disable(name) !in ops[i + 1..]
  }

  /** The last operation on the name was to enable it. */
  ghost predicate LastEnables(ops: seq<Op>, name: string) {
    exists i: nat :: LastEnablesAt(ops, name, i)
  }

  lemma LaterEnables(op: Op, ops: seq<Op>, name: string, i: nat)
    requires i > 0
    ensures LastEnablesAt([op] + ops, name, i) <==> LastEnablesAt(ops, name, i - 1)
  {
    if i < |ops| + 1 {
      assert ([op] + ops)[i + 1..] == ops[i..];
    }
  }

  lemma LastEnablesCons(op: Op, ops: seq<Op>, name: string)
    ensures LastEnables([op] + ops, name) <==> LastEnables(ops, name) || (op == Enable(name) && Disable(name) !in ops)
  {
    var all := [op] + ops;
    assert all[0 + 1..] == ops;
    assert LastEnablesAt(all, name, 0) <==> op == Enable(name) && Disable(name) !in ops;
    if i: nat :| LastEnablesAt(all, name, i) {
      if i > 0 {
        LaterEnables(op, ops, name, i);
      }
    }
    if i: nat :| LastEnablesAt(ops, name, i) {
      LaterEnables(op, ops, name, i + 1);
    }
  }

  /** What one operation does to one name. */
  lemma StepOnName(v: View, op: Op, available: set<string>, name: string)
    requires Distinct(v.enabled)
    ensures Distinct(Step(v, op, available).enabled)
    ensures name in Step(v, op, available).enabled <==> op == Enable(name) || (name in v.enabled && op != Disable(name))
  {
    match op
    case Enable(other) =>
    case Disable(other) => WithoutKeepsDistinct(v.enabled, other);
    case Load =>
  }

  /**
   * Over any run from a list without repetition, a name is enabled at the end exactly when the last
   * operation on it enabled it, or there was none and it was enabled before.
   */
  lemma {:induction false} EnabledByLastOperation(v: View, ops: seq<Op>, available: set<string>, name: string)
    requires Distinct(v.enabled)
    ensures name in Run(v, ops, available).enabled
       <==> LastEnables(ops, name) || (name in v.enabled && Disable(name) !in ops)
    decreases ops
  {
    if ops != [] {
      var next := Step(v, ops[0], available);
      assert ops == [ops[0]] + ops[1..];
      StepOnName(v, ops[0], available, name);
      EnabledByLastOperation(next, ops[1..], available, name);
      LastEnablesCons(ops[0], ops[1..], name);
    }
  }

  lemma {:induction false} LoadableIsExact(list: seq<string>, available: set<string>, name: string)
    ensures name in Loadable(list, available) <==> name in list && name in available
  {
    if list != [] {
      LoadableIsExact(list[1..], available, name);
      assert list == [list[0]] + list[1..];
    }
  }

  /** And it is held exactly when it is also available, once the lists agree. */
  lemma HeldByLastOperation(v: View, ops: seq<Op>, available: set<string>, name: string)
    requires Distinct(v.enabled) && Agrees(v, available)
    ensures name in Run(v, ops, available).held
       <==> name in available && (LastEnables(ops, name) || (name in v.enabled && Disable(name) !in ops))
  {
    HeldAgreesWithEnabled(v, ops, available);
    EnabledByLastOperation(v, ops, available, name);
    LoadableIsExact(Run(v, ops, available).enabled, available, name);
  }

  // ---- the stored list across sessions ---------------------------------------------------------

  function EnabledIn(root: VariantMap): seq<string> {
    Lookup(root, ENABLED).ToStringList()
  }

  /**
   * A configuration that is saved and loaded enables the same plugins, even when the list is empty
   * and therefore not written; the only value that reads differently is a lone empty text.
   */
  lemma EnabledSurvivesRestart(st: Store)
    requires [] !in st.hubs
    ensures EnabledIn(Restarted(st).root) == EnabledIn(st.root) <==> Lookup(st.root, ENABLED) != Str([])
  {
    SettingsRoundTrip(st, [], ENABLED);
    SurvivorReads(Lookup(st.root, ENABLED));
  }

  lemma SurvivorReads(v: Variant)
    ensures Survivor(v).ToStringList() == v.ToStringList() <==> v != Str([])
  {
  }

  // ---- the profile -----------------------------------------------------------------------------

  class Profile {
    var config: Config?
    /** The plugins that are held, by name. */
    var plugins: seq<string>
    /** The plugins that the plugin manager can provide. */
    const available: set<string>

    constructor (config: Config?, available: set<string>)
      ensures this.config == config && this.available == available && plugins == []
    {
      this.config, this.available, plugins := config, available, [];
    }

    function EnabledPlugins(): (list: seq<string>)
      reads this, config, if config == null then {} else {config.root}
    {
      if config == null then [] else config.root.Value(ENABLED).ToStringList()
    }

    ghost function State(): View
      reads this, config, if config == null then {} else {config.root}
    {
      View(EnabledPlugins(), plugins)
    }

    method EnablePlugin(name: string)
      modifies this`plugins, if config == null then {} else {config.root}
      ensures State() == if config == null then old(State()) else Step(old(State()), Enable(name), available)
      ensures config != null ==> forall k :: k != ENABLED ==> config.root.Value(k) == old(config.root.Value(k))
    {
      if config == null {
        return;
      }
      var list := EnabledPlugins();
      if name !in list {
        list := list + [name];
        AddPlugin(name);
        config.root.SetValue(ENABLED, StrList(list));
      }
    }

    method DisablePlugin(name: string)
      modifies this`plugins, if config == null then {} else {config.root}
      ensures State() == if config == null then old(State()) else Step(old(State()), Disable(name), available)
      ensures config != null ==> forall k :: k != ENABLED ==> config.root.Value(k) == old(config.root.Value(k))
    {
      if config == null {
        return;
      }
      var list := EnabledPlugins();
      if name in list {
        list := Without(list, name);
        RemovePlugin(name);
        config.root.SetValue(ENABLED, StrList(list));
      }
    }

    method AddPlugin(name: string)
      modifies this`plugins
      ensures plugins == old(plugins) + if name in available then [name] else []
    {
      if name in available {
        plugins := plugins + [name];
      }
    }

    method RemovePlugin(name: string)
      modifies this`plugins
      ensures plugins == Without(old(plugins), name)
    {
      for i := 0 to |plugins|
        invariant plugins == old(plugins)
        invariant Without(plugins, name) == plugins[..i] + Without(plugins[i..], name)
      {
        assert plugins[i..] == [plugins[i]] + plugins[i + 1..];
        WithoutStep(plugins[i], plugins[i + 1..], name);
        if plugins[i] == name {
          plugins := plugins[..i] + plugins[i + 1..];
          return;
        }
        assert plugins[..i] + [plugins[i]] == plugins[..i + 1];
        Shift(plugins[..i], [plugins[i]], Without(plugins[i + 1..], name));
      }
      assert plugins[..|plugins|] + [] == plugins;
    }

    method LoadPlugins()
      modifies this`plugins
      ensures State() == Step(old(State()), Load, available)
    {
      plugins := [];
      var names := EnabledPlugins();
      for i := 0 to |names|
        invariant plugins == Loadable(names[..i], available)
      {
        AddPlugin(names[i]);
        LoadableSnoc(names[..i], names[i], available);
        assert names[..i + 1] == names[..i] + [names[i]];
      }
      assert names[..|names|] == names;
    }
  }
}
