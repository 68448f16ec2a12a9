/** The table of plugin records, with strong references that may die at any time. */
module Plugins {
  import opened Bytes
  import opened Decimal

  type PluginId = nat

  // The flags of a plugin.
  const KDE_COMPILE: bv32 := 0x1
  const PROTOCOL: bv32 := 0xc
  const NODISABLE: bv32 := 0x10

  /** What a library file does when it is loaded and asked for its plugin information. */
  datatype Library = Library(loads: bool, flags: Option<bv32>) {
    predicate Usable() {
      loads && flags.Some? && flags.value & KDE_COMPILE == 0
    }
  }

  datatype Record = Record(
    name: string,
    path: string,
    alwaysEnabled: bool,
    protocol: bool,
    hasModule: bool,
    info: Option<bv32>,
    plugin: Option<PluginId>)
  {
    predicate Live(live: set<PluginId>) {
      plugin.Some? && plugin.value in live
    }

    function Unloaded(): Record {
      this.(hasModule := false, info := None)
    }

    /** `load`: the module and the information are each fetched when they are missing. */
    function Loaded(lib: Library): (bool, Record) {
      if !hasModule && !lib.loads then (false, Unloaded())
      else if info.Some? then (true, this.(hasModule := true))
      else if lib.flags.None? || lib.flags.value & KDE_COMPILE != 0 then (false, Unloaded())
      else (true, this.(hasModule := true, info := lib.flags))
    }

    function Released(): Record {
      this.(plugin := None, hasModule := false, info := None)
    }
  }

  /** `live` are the plugins that somebody holds, `next` is the one to be created next. */
  datatype State = State(records: seq<Record>, live: set<PluginId>, next: PluginId)

  const START := State([], {}, 0)

  function Lower(s: string): string {
    if s == [] then []
    else [if 'A' <= s[0] <= 'Z' then (s[0] as int + 32) as char else s[0]] + Lower(s[1..])
  }

  /** The file name up to its first dot, in lower case. */
  function BaseName(path: string): string {
    var file := path[LastIndexOf(path, '/') + 1..];
    var dot := IndexOf(file, '.', 0);
    Lower(if dot == -1 then file else file[..dot])
  }

  /** No record is ever found for the empty name. */
  function Find(records: seq<Record>, name: string): (i: int)
    ensures -1 <= i < |records|
    ensures i >= 0 ==> name != [] && records[i].name == name && forall j :: 0 <= j < i ==> records[j].name != name
    ensures i == -1 ==> name == [] || forall j :: 0 <= j < |records| ==> records[j].name != name
  {
    if name == [] || records == [] then -1
    else if records[0].name == name then 0
    else
      var i := Find(records[1..], name);
      if i == -1 then -1 else i + 1
  }

  /** The record for a path, unless its library is unusable. Only plugins that cannot be disabled stay loaded. */
  function Discovered(path: string, lib: Library): Option<Record> {
    if !lib.Usable() then None
    else
      var flags := lib.flags.value;
      var always := flags & NODISABLE == NODISABLE;
      Some(Record(BaseName(path), path, always, flags & PROTOCOL == PROTOCOL, always, if always then lib.flags else None, None))
  }

  function WithPath(records: seq<Record>, path: string, lib: Library): seq<Record> {
    var found := Discovered(path, lib);
    if Find(records, BaseName(path)) != -1 || found.None? then records else records + [found.value]
  }

  function InitFrom(records: seq<Record>, paths: seq<string>, libs: string -> Library): seq<Record>
    decreases paths
  {
    if paths == [] then records else InitFrom(WithPath(records, paths[0], libs(paths[0])), paths[1..], libs)
  }

  /** `create`: the plugin that is alive, or a new one if its library loads and it can be made. */
  function Created(st: State, i: nat, lib: Library, makes: bool): (Option<PluginId>, State)
    requires i < |st.records|
  {
    var r := st.records[i];
    if r.Live(st.live) then (r.plugin, st)
    else
      var (ok, r') := r.Loaded(lib);
      if !ok || !makes then (None, st.(records := st.records[i := r']))
      else
        (Some(st.next),
         State(st.records[i := r'.(plugin := Some(st.next))], st.live + {st.next}, st.next + 1))
  }

  function Plugin(st: State, name: string, libs: string -> Library, makes: bool): (Option<PluginId>, State) {
    var i := Find(st.records, name);
    if i == -1 then (None, st) else Created(st, i, libs(st.records[i].path), makes)
  }

  function Collected(r: Record, live: set<PluginId>): Record {
    if !r.Live(live) && r.hasModule then r.Released() else r
  }

  datatype Op =
    | InitList(paths: seq<string>, libs: string -> Library)
    | Get(name: string, libs: string -> Library, makes: bool)
    | Release(name: string)
    | CollectGarbage
    | ReleaseAll
    | Die(id: PluginId)

  function Step(st: State, op: Op): State {
    match op
    case InitList(paths, libs) => st.(records := InitFrom(st.records, paths, libs))
    case Get(name, libs, makes) => Plugin(st, name, libs, makes).1
    case Release(name) =>
      var i := Find(st.records, name);
      if i == -1 then st else st.(records := st.records[i := st.records[i].Released()])
    case CollectGarbage => st.(records := CollectedAll(st.records, st.live))
    case ReleaseAll => st.(records := ReleasedTail(st.records))
    case Die(id) => st.(live := st.live - {id})
  }

  function CollectedAll(records: seq<Record>, live: set<PluginId>): (r: seq<Record>)
    ensures |r| == |records| && forall i :: 0 <= i < |r| ==> r[i] == Collected(records[i], live)
  {
    seq(|records|, i requires 0 <= i < |records| => Collected(records[i], live))
  }

  /** The first record is spared. */
  function ReleasedTail(records: seq<Record>): (r: seq<Record>)
    ensures |r| == |records|
    ensures forall i :: 0 <= i < |r| ==> r[i] == if i == 0 then records[i] else records[i].Released()
  {
    seq(|records|, i requires 0 <= i < |records| => if i == 0 then records[i] else records[i].Released())
  }

  function Run(st: State, ops: seq<Op>): State
    decreases |ops|
  {
    if ops == [] then st else Run(Step(st, ops[0]), ops[1..])
  }

  // ---- safety ----------------------------------------------------------------------------------

  ghost predicate RecordSafe(r: Record, st: State) {
    && (r.info.Some? ==> r.hasModule)
    && (r.Live(st.live) ==> r.hasModule && r.info.Some?)
    && (r.plugin.Some? ==> r.plugin.value < st.next)
  }

  ghost predicate UniqueNames(records: seq<Record>) {
    forall i, j :: 0 <= i < j < |records| ==> records[i].name != records[j].name || records[i].name == []
  }

  ghost predicate OwnPlugins(records: seq<Record>) {
    forall i, j :: 0 <= i < j < |records| ==> records[i].plugin.None? || records[i].plugin != records[j].plugin
  }

  ghost predicate Safe(st: State) {
    && (forall r <- st.records :: RecordSafe(r, st))
    && (forall id <- st.live :: id < st.next)
    && UniqueNames(st.records)
    && OwnPlugins(st.records)
  }

  lemma WithPathIsSafe(st: State, path: string, lib: Library)
    requires Safe(st)
    ensures Safe(st.(records := WithPath(st.records, path, lib)))
  {
    var next := st.(records := WithPath(st.records, path, lib));
    forall r | r in next.records
      ensures RecordSafe(r, next)
    {
      assert r in st.records ==> RecordSafe(r, st);
    }
  }

  lemma {:induction false} InitIsSafe(st: State, paths: seq<string>, libs: string -> Library)
    requires Safe(st)
    ensures Safe(st.(records := InitFrom(st.records, paths, libs)))
    decreases paths
  {
    if paths == [] {
      assert st.(records := st.records) == st;
    } else {
      WithPathIsSafe(st, paths[0], libs(paths[0]));
      InitIsSafe(st.(records := WithPath(st.records, paths[0], libs(paths[0]))), paths[1..], libs);
    }
  }

  lemma CreatedChangesOne(st: State, i: nat, lib: Library, makes: bool)
    requires i < |st.records|
    ensures var (id, st') := Created(st, i, lib, makes);
            && |st'.records| == |st.records| && (forall j :: 0 <= j < |st.records| && j != i ==> st'.records[j] == st.records[j])
            && st'.records[i].name == st.records[i].name
            && st'.live == st.live + (if st'.next > st.next then {st.next} else {})
            && (st.records[i].Live(st.live) ==> st' == st && id == st.records[i].plugin)
            && (!st.records[i].Live(st.live) && id.Some? ==> st'.records[i].plugin == id && id.value in st'.live)
  {
  }

  lemma CreatedIsSafe(st: State, i: nat, lib: Library, makes: bool)
    requires Safe(st) && i < |st.records|
    ensures Safe(Created(st, i, lib, makes).1)
  {
    CreatedChangesOne(st, i, lib, makes);
    var st' := Created(st, i, lib, makes).1;
    forall j | 0 <= j < |st'.records|
      ensures RecordSafe(st'.records[j], st')
      ensures j != i ==> st'.records[j].plugin.None? || st'.records[j].plugin != st'.records[i].plugin
    {
      assert RecordSafe(st.records[j], st) && RecordSafe(st.records[i], st);
    }
  }

  /** Releasing any of the records, and any plugins dying. */
  lemma ReleasesAreSafe(st: State, st': State)
    requires Safe(st) && |st'.records| == |st.records| && st'.live <= st.live && st'.next == st.next
    requires forall j :: 0 <= j < |st.records| ==>
               st'.records[j] == st.records[j] || st'.records[j] == st.records[j].Released()
    ensures Safe(st')
  {
    forall j | 0 <= j < |st'.records|
      ensures RecordSafe(st'.records[j], st')
    {
      assert RecordSafe(st.records[j], st);
    }
  }

  lemma StepIsSafe(st: State, op: Op)
    requires Safe(st)
    ensures Safe(Step(st, op))
  {
    match op
    case InitList(paths, libs) => InitIsSafe(st, paths, libs);
    case Get(name, libs, makes) =>
      var i := Find(st.records, name);
      if i != -1 {
        CreatedIsSafe(st, i, libs(st.records[i].path), makes);
      }
    case _ => ReleasesAreSafe(st, Step(st, op));
  }

  /** Whatever happens, in whatever order: the table stays consistent with what is loaded and alive. */
  lemma {:induction false} EveryRunIsSafe(st: State, ops: seq<Op>)
    requires Safe(st)
    ensures Safe(Run(st, ops))
    decreases |ops|
  {
    if ops != [] {
      StepIsSafe(st, ops[0]);
      EveryRunIsSafe(Step(st, ops[0]), ops[1..]);
    }
  }

  /** After a collection a module is loaded exactly for the plugins that are alive. */
  lemma CollectionKeepsTheLiving(st: State)
    requires Safe(st)
    ensures forall r <- Step(st, CollectGarbage).records ::
              (r.hasModule <==> r.Live(st.live)) && (r.info.Some? <==> r.Live(st.live))
  {
    var st' := Step(st, CollectGarbage);
    forall r | r in st'.records
      ensures (r.hasModule <==> r.Live(st.live)) && (r.info.Some? <==> r.Live(st.live))
    {
      var i :| 0 <= i < |st'.records| && st'.records[i] == r;
      assert RecordSafe(st.records[i], st);
    }
  }

  /** Everything is unloaded by the final release exactly when the first record already was. */
  lemma FinalReleaseSparesFirst(st: State)
    requires Safe(st)
    ensures (forall r <- Step(st, ReleaseAll).records :: !r.hasModule && r.info.None?)
       <==> st.records == [] || !st.records[0].hasModule
  {
    var st' := Step(st, ReleaseAll);
    if st.records != [] {
      assert st'.records[0] == st.records[0] && RecordSafe(st.records[0], st);
    }
  }

  // ---- the same object -------------------------------------------------------------------------

  /** The record found for the name points to a plugin that somebody holds. */
  ghost predicate Holds(st: State, name: string, id: PluginId) {
    var i := Find(st.records, name);
    i != -1 && st.records[i].plugin == Some(id) && id in st.live
  }

  ghost predicate Drops(st: State, op: Op, name: string, id: PluginId) {
    op == Release(name) || op == Die(id) || (op == ReleaseAll && Find(st.records, name) > 0)
  }

  lemma FindIsThe(records: seq<Record>, name: string, i: nat)
    requires name != [] && i < |records| && records[i].name == name
    requires forall j :: 0 <= j < i ==> records[j].name != name
    ensures Find(records, name) == i
  {
  }

  lemma {:induction false} InitKeepsRecords(records: seq<Record>, paths: seq<string>, libs: string -> Library)
    ensures records <= InitFrom(records, paths, libs)
    decreases paths
  {
    if paths != [] {
      InitKeepsRecords(WithPath(records, paths[0], libs(paths[0])), paths[1..], libs);
    }
  }

  lemma FindSameNames(a: seq<Record>, b: seq<Record>, name: string)
    requires |a| <= |b| && (forall j :: 0 <= j < |a| ==> a[j].name == b[j].name) && Find(a, name) != -1
    ensures Find(b, name) == Find(a, name)
  {
    FindIsThe(b, name, Find(a, name));
  }

  lemma StepKeepsNames(st: State, op: Op)
    ensures var st' := Step(st, op);
            |st.records| <= |st'.records| && forall j :: 0 <= j < |st.records| ==> st.records[j].name == st'.records[j].name
  {
    match op
    case InitList(paths, libs) => InitKeepsRecords(st.records, paths, libs);
    case Get(name, libs, makes) =>
      var i := Find(st.records, name);
      if i != -1 {
        CreatedChangesOne(st, i, libs(st.records[i].path), makes);
      }
    case _ =>
  }

  /** Whoever is asked for, the record of a live plugin does not change. */
  lemma GetKeepsLiving(st: State, i: nat, other: string, libs: string -> Library, makes: bool)
    requires i < |st.records| && st.records[i].Live(st.live)
    ensures var st' := Plugin(st, other, libs, makes).1;
            |st'.records| == |st.records| && st'.records[i] == st.records[i] && st.live <= st'.live
  {
    var k := Find(st.records, other);
    if k != -1 {
      CreatedChangesOne(st, k, libs(st.records[k].path), makes);
    }
  }

  lemma HoldsAt(st: State, i: nat, name: string, id: PluginId)
    requires Find(st.records, name) == i
    ensures Holds(st, name, id) <==> st.records[i].plugin == Some(id) && id in st.live
  {
  }

  /** A held plugin is given up by these operations and by no others. */
  lemma StepHolds(st: State, op: Op, name: string, id: PluginId)
    requires Holds(st, name, id)
    ensures Holds(Step(st, op), name, id) <==> !Drops(st, op, name, id)
  {
    var i := Find(st.records, name);
    StepKeepsNames(st, op);
    FindSameNames(st.records, Step(st, op).records, name);
    HoldsAt(Step(st, op), i, name, id);
    match op
    case InitList(paths, libs) => InitKeepsRecords(st.records, paths, libs);
    case Get(other, libs, makes) => GetKeepsLiving(st, i, other, libs, makes);
    case Release(other) =>
      assert Find(st.records, other) == i ==> other == name;
    case CollectGarbage =>
      assert Collected(st.records[i], st.live) == st.records[i];
    case _ =>
  }

  /**
   * No operation of the run gives the plugin up. This can be read off the operations, because a
   * record stays where it is.
   */
  ghost predicate Kept(st: State, ops: seq<Op>, name: string, id: PluginId) {
    forall op <- ops :: !Drops(st, op, name, id)
  }

  lemma DropsIsFixed(st: State, first: Op, op: Op, name: string, id: PluginId)
    requires Find(st.records, name) != -1
    ensures Drops(Step(st, first), op, name, id) <==> Drops(st, op, name, id)
    ensures Find(Step(st, first).records, name) != -1
  {
    StepKeepsNames(st, first);
    FindSameNames(st.records, Step(st, first).records, name);
  }

  lemma KeptStep(st: State, op: Op, ops: seq<Op>, name: string, id: PluginId)
    requires Find(st.records, name) != -1
    ensures Kept(st, [op] + ops, name, id) <==> !Drops(st, op, name, id) && Kept(Step(st, op), ops, name, id)
  {
    var next, all := Step(st, op), [op] + ops;
    forall later | later in ops
      ensures Drops(next, later, name, id) <==> Drops(st, later, name, id)
    {
      DropsIsFixed(st, op, later, name, id);
    }
    assert all[0] == op && forall later <- all :: later == op || later in ops;
    assert forall later <- ops :: later in all;
  }

  /** The plugin is known, but nobody holds it or no record points to it. */
  ghost predicate Gone(st: State, id: PluginId) {
    id < st.next && (id !in st.live || forall r <- st.records :: r.plugin != Some(id))
  }

  lemma DroppedIsGone(st: State, op: Op, name: string, id: PluginId)
    requires Safe(st) && Holds(st, name, id) && Drops(st, op, name, id)
    ensures Gone(Step(st, op), id)
  {
    assert RecordSafe(st.records[Find(st.records, name)], st);
  }

  lemma {:induction false} InitAddsNoPlugin(records: seq<Record>, paths: seq<string>, libs: string -> Library, id: PluginId)
    requires forall r <- records :: r.plugin != Some(id)
    ensures forall r <- InitFrom(records, paths, libs) :: r.plugin != Some(id)
    decreases paths
  {
    if paths != [] {
      InitAddsNoPlugin(WithPath(records, paths[0], libs(paths[0])), paths[1..], libs, id);
    }
  }

  lemma StepKeepsGone(st: State, op: Op, id: PluginId)
    requires Gone(st, id)
    ensures Gone(Step(st, op), id)
  {
    match op
    case InitList(paths, libs) =>
      if id in st.live {
        InitAddsNoPlugin(st.records, paths, libs, id);
      }
    case _ =>
  }

  /** A plugin that was given up never comes back under any name. */
  lemma {:induction false} GoneForGood(st: State, ops: seq<Op>, id: PluginId)
    requires Gone(st, id)
    ensures Gone(Run(st, ops), id)
    decreases |ops|
  {
    if ops != [] {
      StepKeepsGone(st, ops[0], id);
      GoneForGood(Step(st, ops[0]), ops[1..], id);
    }
  }

  lemma GoneIsNotHeld(st: State, name: string, id: PluginId)
    requires Gone(st, id)
    ensures !Holds(st, name, id)
  {
  }

  /** Over any run a held plugin is still held exactly when no operation gave it up. */
  lemma {:induction false} RunHolds(st: State, ops: seq<Op>, name: string, id: PluginId)
    requires Safe(st) && Holds(st, name, id)
    ensures Holds(Run(st, ops), name, id) <==> Kept(st, ops, name, id)
    decreases |ops|
  {
    if ops != [] {
      var next := Step(st, ops[0]);
      KeptStep(st, ops[0], ops[1..], name, id);
      assert ops == [ops[0]] + ops[1..];
      if Drops(st, ops[0], name, id) {
        DroppedIsGone(st, ops[0], name, id);
        GoneForGood(next, ops[1..], id);
        GoneIsNotHeld(Run(next, ops[1..]), name, id);
      } else {
        StepHolds(st, ops[0], name, id);
        StepIsSafe(st, ops[0]);
        RunHolds(next, ops[1..], name, id);
      }
    }
  }

  /** Asking for the name gives this plugin and changes nothing. */
  ghost predicate AnswersWith(st: State, name: string, libs: string -> Library, makes: bool, id: Option<PluginId>) {
    Plugin(st, name, libs, makes) == (id, st)
  }

  lemma HeldIsTheAnswer(st: State, name: string, libs: string -> Library, makes: bool, id: PluginId)
    ensures AnswersWith(st, name, libs, makes, Some(id)) <==> Holds(st, name, id)
  {
    var i := Find(st.records, name);
    if i != -1 {
      CreatedChangesOne(st, i, libs(st.records[i].path), makes);
    }
  }

  /**
   * After any run asking for the name gives the same object again exactly when no operation of the
   * run gave it up: its name was not released, its last reference did not die, and it was not hit
   * by the final release.
   */
  lemma SameObjectWhileHeld(st: State, ops: seq<Op>, name: string, libs: string -> Library, makes: bool,
                            libs': string -> Library, makes': bool)
    requires Safe(st) && Plugin(st, name, libs, makes).0.Some?
    ensures var (id, st1) := Plugin(st, name, libs, makes);
            AnswersWith(Run(st1, ops), name, libs', makes', id) <==> Kept(st1, ops, name, id.value)
  {
    var (id, st1) := Plugin(st, name, libs, makes);
    PluginIsHeld(st, name, libs, makes);
    StepIsSafe(st, Get(name, libs, makes));
    RunHolds(st1, ops, name, id.value);
    HeldIsTheAnswer(Run(st1, ops), name, libs', makes', id.value);
  }

  lemma PluginIsHeld(st: State, name: string, libs: string -> Library, makes: bool)
    requires Plugin(st, name, libs, makes).0.Some?
    ensures var (id, st1) := Plugin(st, name, libs, makes);
            st1 == Step(st, Get(name, libs, makes)) && Holds(st1, name, id.value)
  {
    var i := Find(st.records, name);
    CreatedChangesOne(st, i, libs(st.records[i].path), makes);
    FindSameNames(st.records, Plugin(st, name, libs, makes).1.records, name);
  }

  // ---- which requests are answered -------------------------------------------------------------

  /** The information is loaded already, or it can be had: from the module, once that is loaded. */
  predicate Available(r: Record, lib: Library) {
    r.info.Some? || ((r.hasModule || lib.loads) && lib.flags.Some? && lib.flags.value & 0x1 == 0)
  }

  /**
   * What becomes of the record of a plugin that is not alive. Module and information are there
   * afterwards exactly when they are available; a failure leaves neither.
   */
  ghost predicate Requested(before: Record, after: Record, lib: Library, plugin: Option<PluginId>) {
    && after == before.(hasModule := after.hasModule, info := after.info, plugin := after.plugin)
    && (after.hasModule <==> Available(before, lib)) && (after.info.Some? <==> Available(before, lib))
    && (after.info.Some? ==> after.info == if before.info.Some? then before.info else lib.flags)
    && after.plugin == if plugin.Some? then plugin else before.plugin
  }

  /** A name is answered exactly when its plugin is alive, or can be loaded and made. */
  lemma RequestIsAnswered(st: State, name: string, libs: string -> Library, makes: bool)
    requires Safe(st)
    ensures var i := Find(st.records, name);
            Plugin(st, name, libs, makes).0.Some?
            <==> i != -1 && (st.records[i].Live(st.live) || (makes && Available(st.records[i], libs(st.records[i].path))))
  {
    var i := Find(st.records, name);
    if i != -1 {
      assert RecordSafe(st.records[i], st);
    }
  }

  /** What the answer is, and what a request leaves behind: nothing else changes. */
  lemma RequestLeaves(st: State, name: string, libs: string -> Library, makes: bool)
    requires Safe(st) && Find(st.records, name) != -1
    ensures var i := Find(st.records, name);
            var (plugin, st') := Plugin(st, name, libs, makes);
            if st.records[i].Live(st.live) then plugin == st.records[i].plugin && st' == st
            else
              && |st'.records| == |st.records| && (forall j :: 0 <= j < |st.records| && j != i ==> st'.records[j] == st.records[j])
              && Requested(st.records[i], st'.records[i], libs(st.records[i].path), plugin)
              && if plugin.Some? then plugin.value == st.next && st'.live == st.live + {st.next} && st'.next == st.next + 1
                 else st'.live == st.live && st'.next == st.next
  {
    assert RecordSafe(st.records[Find(st.records, name)], st);
  }

  /** Releasing by name while the plugin is held makes the next request create a second object. */
  lemma ReleaseForgetsTheLiving(st: State, name: string, id: PluginId, libs: string -> Library)
    requires Safe(st) && Holds(st, name, id) && libs(st.records[Find(st.records, name)].path).Usable()
    ensures var (other, st') := Plugin(Step(st, Release(name)), name, libs, true);
            other.Some? && other.value != id && id in st'.live && other.value in st'.live
  {
    var i := Find(st.records, name);
    var st1 := Step(st, Release(name));
    FindIsThe(st1.records, name, i);
  }

  // ---- which file a record stands for ----------------------------------------------------------

  /** The first path with this base name whose library is usable. */
  function FirstUsable(paths: seq<string>, libs: string -> Library, name: string): Option<string> {
    if paths == [] then None
    else if BaseName(paths[0]) == name && libs(paths[0]).Usable() then Some(paths[0])
    else FirstUsable(paths[1..], libs, name)
  }

  lemma FindInLonger(records: seq<Record>, r: Record, name: string)
    ensures Find(records + [r], name)
         == if Find(records, name) != -1 then Find(records, name)
            else if name != [] && r.name == name then |records| else -1
  {
    var all := records + [r];
    if name != [] {
      if Find(records, name) != -1 {
        assert all[Find(records, name)].name == name;
        FindIsThe(all, name, Find(records, name));
      } else if r.name == name {
        FindIsThe(all, name, |records|);
      }
    }
  }

  /** The record found for the name is the one of this path, or there is none. */
  ghost predicate StandsFor(records: seq<Record>, name: string, path: Option<string>) {
    var i := Find(records, name);
    if path.None? then i == -1 else i != -1 && records[i].path == path.value
  }

  /** A known name keeps its record; otherwise the first usable path with the name gets one. */
  lemma {:induction false} RecordsStandForFirstPaths(records: seq<Record>, paths: seq<string>, libs: string -> Library,
                                                     name: string)
    requires name != []
    ensures Find(records, name) != -1 ==> Find(InitFrom(records, paths, libs), name) == Find(records, name)
    ensures Find(records, name) == -1 ==> StandsFor(InitFrom(records, paths, libs), name, FirstUsable(paths, libs, name))
    decreases paths
  {
    if paths != [] {
      var next := WithPath(records, paths[0], libs(paths[0]));
      InitKeepsRecords(next, paths[1..], libs);
      RecordsStandForFirstPaths(next, paths[1..], libs, name);
      if next != records {
        FindInLonger(records, Discovered(paths[0], libs(paths[0])).value, name);
      }
    }
  }

  /** Name, flags and loaded state as the file has them: 0x10 is "cannot be disabled", 0xc "protocol". */
  ghost predicate Describes(r: Record, libs: string -> Library) {
    && libs(r.path).Usable() && r.name == BaseName(r.path) && r.plugin.None?
    && (r.alwaysEnabled <==> libs(r.path).flags.value & 0x10 == 0x10)
    && (r.protocol <==> libs(r.path).flags.value & 0xc == 0xc)
    && (r.hasModule <==> r.alwaysEnabled) && (r.info == if r.alwaysEnabled then libs(r.path).flags else None)
  }

  /** From an empty table, every record describes its file, and only what cannot be disabled stays loaded. */
  lemma {:induction false} RecordsDescribeTheirFiles(records: seq<Record>, paths: seq<string>, libs: string -> Library)
    requires forall r <- records :: Describes(r, libs)
    ensures forall r <- InitFrom(records, paths, libs) :: Describes(r, libs)
    decreases paths
  {
    if paths != [] {
      RecordsDescribeTheirFiles(WithPath(records, paths[0], libs(paths[0])), paths[1..], libs);
    }
  }

  lemma {:induction false} FirstUsableExists(paths: seq<string>, libs: string -> Library, name: string)
    ensures FirstUsable(paths, libs, name).Some? <==> exists path <- paths :: BaseName(path) == name && libs(path).Usable()
  {
    if paths != [] {
      FirstUsableExists(paths[1..], libs, name);
      assert paths == [paths[0]] + paths[1..];
    }
  }

  /** The file can be loaded, has plugin information, and is not built for KDE. */
  predicate Works(lib: Library) {
    lib.loads && lib.flags.Some? && lib.flags.value & 0x1 == 0
  }

  /** Once the table is filled, a name is answered exactly when some working file has it as its base name. */
  lemma WorkingNamesAreAnswered(paths: seq<string>, libs: string -> Library, name: string)
    ensures Plugin(Step(START, InitList(paths, libs)), name, libs, true).0.Some?
       <==> name != [] && exists path <- paths :: BaseName(path) == name && Works(libs(path))
  {
    var st := Step(START, InitList(paths, libs));
    StepIsSafe(START, InitList(paths, libs));
    RequestIsAnswered(st, name, libs, true);
    RecordsDescribeTheirFiles([], paths, libs);
    FirstUsableExists(paths, libs, name);
    if name != [] {
      RecordsStandForFirstPaths([], paths, libs, name);
    }
    var i := Find(st.records, name);
    if i != -1 {
      assert Describes(st.records[i], libs);
    }
    assert forall path <- paths :: Works(libs(path)) <==> libs(path).Usable();
  }

  lemma {:induction false} LowerIsPointwise(s: string)
    ensures |Lower(s)| == |s|
    ensures forall i :: 0 <= i < |s| ==>
              Lower(s)[i] == if 'A' <= s[i] <= 'Z' then s[i] - 'A' + 'a' else s[i]
  {
    if s != [] {
      LowerIsPointwise(s[1..]);
      assert s == [s[0]] + s[1..];
    }
  }

  lemma LastSlash(dir: string, file: string)
    requires (dir == [] || dir[|dir| - 1] == '/') && '/' !in file
    ensures LastIndexOf(dir + file, '/') == |dir| - 1 && (dir + file)[|dir|..] == file
  {
    var path := dir + file;
    assert forall j :: |dir| <= j < |path| ==> path[j] in file;
    assert dir != [] ==> path[|dir| - 1] == '/';
  }

  lemma FirstDot(base: string, ext: string)
    requires '.' !in base && (ext == [] || ext[0] == '.')
    ensures IndexOf(base + ext, '.', 0) == if ext == [] then -1 else |base|
    ensures (base + ext)[..|base|] == base
  {
    var file := base + ext;
    assert forall j :: 0 <= j < |base| ==> file[j] in base;
    assert ext != [] ==> file[|base|] == '.';
  }

  /** Directories and everything from the first dot of the file name on do not count. */
  lemma BaseNameOfPath(dir: string, base: string, ext: string)
    requires (dir == [] || dir[|dir| - 1] == '/') && '/' !in base + ext && '.' !in base && (ext == [] || ext[0] == '.')
    ensures BaseName(dir + (base + ext)) == Lower(base)
  {
    LastSlash(dir, base + ext);
    FirstDot(base, ext);
    assert ext == [] ==> base + ext == base;
  }

  // ---- the empty name --------------------------------------------------------------------------

  function Nameless(paths: seq<string>, libs: string -> Library): nat {
    if paths == [] then 0
    else (if BaseName(paths[0]) == [] && libs(paths[0]).Usable() then 1 else 0) + Nameless(paths[1..], libs)
  }

  function NamelessRecords(records: seq<Record>): nat {
    if records == [] then 0 else (if records[0].name == [] then 1 else 0) + NamelessRecords(records[1..])
  }

  lemma {:induction false} NamelessSnoc(records: seq<Record>, r: Record)
    ensures NamelessRecords(records + [r]) == NamelessRecords(records) + if r.name == [] then 1 else 0
  {
    if records == [] {
      assert records + [r] == [r];
      assert [r][1..] == [];
    } else {
      NamelessSnoc(records[1..], r);
      assert (records + [r])[1..] == records[1..] + [r];
    }
  }

  /** Every usable file without a base name gets a record of its own, so the empty name may repeat. */
  lemma {:induction false} NamelessFilesAllGetRecords(records: seq<Record>, paths: seq<string>, libs: string -> Library)
    ensures NamelessRecords(InitFrom(records, paths, libs)) == NamelessRecords(records) + Nameless(paths, libs)
    decreases paths
  {
    if paths != [] {
      var lib := libs(paths[0]);
      if lib.Usable() {
        NamelessSnoc(records, Discovered(paths[0], lib).value);
      }
      NamelessFilesAllGetRecords(WithPath(records, paths[0], lib), paths[1..], libs);
    }
  }

  lemma {:induction false} NamelessCount(records: seq<Record>)
    ensures NamelessRecords(records) == 0 <==> forall r <- records :: r.name != []
    ensures NamelessRecords(records) <= 1
       <==> forall i, j :: 0 <= i < j < |records| ==> !(records[i].name == [] && records[j].name == [])
  {
    if records != [] {
      var tail := records[1..];
      NamelessCount(tail);
      assert records == [records[0]] + tail;
      assert forall j :: 0 < j < |records| ==> records[j] == tail[j - 1];
      assert forall j :: 0 <= j < |tail| ==> tail[j] == records[j + 1];
    }
  }

  /** From an empty table all names differ exactly when at most one usable file has no base name. */
  lemma NamesDifferUnlessEmpty(paths: seq<string>, libs: string -> Library)
    ensures var records := InitFrom([], paths, libs);
            (forall i, j :: 0 <= i < j < |records| ==> records[i].name != records[j].name) <==> Nameless(paths, libs) <= 1
  {
    var records := InitFrom([], paths, libs);
    InitIsSafe(START, paths, libs);
    NamelessFilesAllGetRecords([], paths, libs);
    NamelessCount(records);
  }

  lemma TwoNamelessFiles(first: string, second: string, libs: string -> Library)
    requires BaseName(first) == BaseName(second) == [] && libs(first).Usable() && libs(second).Usable()
    ensures InitFrom([], [first, second], libs) == [Discovered(first, libs(first)).value, Discovered(second, libs(second)).value]
  {
    var one := [Discovered(first, libs(first)).value];
    assert WithPath([], first, libs(first)) == one;
    assert [first, second][1..] == [second] && [second][1..] == [];
    assert InitFrom(one, [second], libs) == WithPath(one, second, libs(second));
  }

  /** Two hidden files in different directories both have the empty base name. */
  lemma NamelessFilesRepeat(libs: string -> Library)
    requires libs("a/.so").Usable() && libs("b/.so").Usable()
    ensures var records := InitFrom([], ["a/.so", "b/.so"], libs);
            |records| == 2 && records[0].name == records[1].name == [] && records[0].path != records[1].path
  {
    HiddenHasNoName('a');
    HiddenHasNoName('b');
    TwoNamelessFiles("a/.so", "b/.so", libs);
    assert "a/.so"[0] != "b/.so"[0];
  }

  lemma HiddenHasNoName(dir: char)
    requires dir != '/'
    ensures BaseName([dir, '/', '.', 's', 'o']) == []
  {
    var path := [dir, '/', '.', 's', 'o'];
    assert LastIndexOf(path, '/') == 1 by {
      assert path[1] == '/';
    }
    var file := path[2..];
    assert IndexOf(file, '.', 0) == 0 by {
      assert file[0] == '.';
    }
  }
}
