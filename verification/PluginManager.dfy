/** The plugin manager, which updates its records in place. */
module PluginManagers {
  import opened Decimal
  import opened Plugins

  class PluginManager {
    var records: seq<Record>
    /** The plugins that somebody holds a strong reference to. */
    var live: set<PluginId>
    var next: PluginId

    ghost function View(): State
      reads this
    {
      State(records, live, next)
    }

    constructor ()
      ensures View() == START
    {
      records, live, next := [], {}, 0;
    }

    method GetInfo(name: string) returns (n: int)
      ensures n == Find(records, name)
    {
      if |name| == 0 {
        return -1;
      }
      n := 0;
      while n < |records|
        invariant 0 <= n <= |records|
        invariant forall j :: 0 <= j < n ==> records[j].name != name
      {
        if records[n].name == name {
          FindIsThe(records, name, n);
          return;
        }
        n := n + 1;
      }
      return -1;
    }

    method InitPluginList(paths: seq<string>, libs: string -> Library)
      modifies `records
      ensures View() == Step(old(View()), InitList(paths, libs))
    {
      for i := 0 to |paths|
        invariant InitFrom(records, paths[i..], libs) == InitFrom(old(records), paths, libs)
      {
        assert paths[i..][1..] == paths[i + 1..];
        InitPlugin(paths[i], libs(paths[i]));
      }
    }

    /** The body of the loop over the paths. */
    method InitPlugin(path: string, lib: Library)
      modifies `records
      ensures records == WithPath(old(records), path, lib)
    {
      var name := BaseName(path);
      var known := GetInfo(name);
      if known != -1 {
        return;
      }
      var info := Record(name, path, false, false, false, None, None);
      var ok;
      ok, info := Load(info, lib);
      if !ok {
        return;
      }
      var flags := info.info.value;
      info := info.(alwaysEnabled := flags & NODISABLE == NODISABLE, protocol := flags & PROTOCOL == PROTOCOL);
      if !info.alwaysEnabled {
        info := Unload(info);
      }
      records := records + [info];
    }

    static method Load(info0: Record, lib: Library) returns (ok: bool, info: Record)
      ensures (ok, info) == info0.Loaded(lib)
    {
      info := info0;
      if !info.hasModule {
        info := info.(hasModule := true);
        if !lib.loads {
          info := Unload(info);
          return false, info;
        }
      }
      if info.info.None? {
        if lib.flags.None? {
          info := Unload(info);
          return false, info;
        }
        info := info.(info := lib.flags);
        if lib.flags.value & KDE_COMPILE != 0 {
          info := Unload(info);
          return false, info;
        }
      }
      return true, info;
    }

    static method Unload(info0: Record) returns (info: Record)
      ensures info == info0.Unloaded()
    {
      info := info0;
      if info.hasModule {
        info := info.(hasModule := false);
      }
      info := info.(info := None);
    }

    /** The caller holds the plugin that is handed out. */
    method Plugin(name: string, libs: string -> Library, makes: bool) returns (plugin: Option<PluginId>)
      modifies this
      ensures (plugin, View()) == Plugins.Plugin(old(View()), name, libs, makes)
    {
      var n := GetInfo(name);
      if n == -1 {
        return None;
      }
      plugin := Create(n, libs(records[n].path), makes);
    }

    method Create(n: nat, lib: Library, makes: bool) returns (plugin: Option<PluginId>)
      requires n < |records|
      modifies this
      ensures (plugin, View()) == Created(old(View()), n, lib, makes)
    {
      if records[n].Live(live) {
        return records[n].plugin;
      }
      var ok, info := Load(records[n], lib);
      records := records[n := info];
      if !ok || !makes {
        return None;
      }
      plugin := Some(next);
      live, next := live + {next}, next + 1;
      records := records[n := info.(plugin := plugin)];
      assert records == old(records)[n := info.(plugin := plugin)];
    }

    method ReleaseAt(n: nat)
      requires n < |records|
      modifies `records
      ensures records == old(records)[n := old(records)[n].Released()]
    {
      var info := records[n];
      if info.plugin.Some? {
        info := info.(plugin := None);
      }
      if info.hasModule {
        info := info.(hasModule := false);
      }
      records := records[n := info.(info := None)];
    }

    method Release(name: string)
      modifies `records
      ensures View() == Step(old(View()), Op.Release(name))
    {
      var n := GetInfo(name);
      if n != -1 {
        ReleaseAt(n);
      }
    }

    method CollectGarbage()
      modifies `records
      ensures View() == Step(old(View()), Op.CollectGarbage)
    {
      for i := 0 to |records|
        invariant |records| == |old(records)|
        invariant forall j :: 0 <= j < i ==> records[j] == Collected(old(records)[j], live)
        invariant forall j :: i <= j < |records| ==> records[j] == old(records)[j]
      {
        if !records[i].Live(live) && records[i].hasModule {
          ReleaseAt(i);
        }
      }
      assert records == CollectedAll(old(records), live);
    }

    method ReleaseAll()
      modifies `records
      ensures View() == Step(old(View()), Op.ReleaseAll)
    {
      if |records| == 0 {
        return;
      }
      var n := |records| - 1;
      while n > 0
        invariant 0 <= n < |records| == |old(records)|
        invariant forall j :: n < j < |records| ==> records[j] == old(records)[j].Released()
        invariant forall j :: 0 <= j <= n ==> records[j] == old(records)[j]
      {
        ReleaseAt(n);
        n := n - 1;
      }
      assert records == ReleasedTail(old(records));
    }

    /** The last strong reference to a plugin goes away. */
    method PluginDies(id: PluginId)
      modifies `live
      ensures View() == Step(old(View()), Die(id))
    {
      live := live - {id};
    }
  }
}
