/** What a configuration holds, its document, and merging settings of the old text format into it. */
module ConfigModel {
  import opened Bytes
  import opened Decimal
  import opened Dom
  import opened Variants
  import Keys

  /** The hub without a namespace, and the named hubs. */
  datatype Store = Store(root: VariantMap, hubs: map<string, VariantMap>)

  const FRESH := Store(map[], map[])

  function Lookup(m: VariantMap, key: string): Variant {
    if key in m then m[key] else Invalid
  }

  function Setting(st: Store, ns: string, key: string): Variant {
    if ns in st.hubs then Lookup(st.hubs[ns], key) else Invalid
  }

  // ---- the document ----------------------------------------------------------------------------

  function HubElement(ns: string, m: VariantMap): Node {
    Element("propertyhub", ns, NoType, SavedEntries(Map(m), Keys.Sorted(m.Keys)))
  }

  /** An empty hub has no element. */
  function Written(ns: string, m: VariantMap): (r: seq<Node>)
    ensures forall e <- r :: e.Element?
  {
    if m == map[] then [] else [HubElement(ns, m)]
  }

  function HubElements(hubs: map<string, VariantMap>, names: seq<string>): (r: seq<Node>)
    requires forall n <- names :: n in hubs
    ensures forall e <- r :: e.Element?
  {
    if names == [] then []
    else Written(names[0], hubs[names[0]]) + HubElements(hubs, names[1..])
  }

  function SavedStore(st: Store): (r: seq<Node>)
    ensures forall e <- r :: e.Element?
  {
    Written([], st.root) + HubElements(st.hubs, Keys.Sorted(st.hubs.Keys))
  }

  function Document(st: Store): seq<Node> {
    [Element("config", [], NoType, SavedStore(st))]
  }

  /** A named hub is replaced, the root hub is loaded over what it holds. */
  function LoadHub(st: Store, e: Node): Store
    requires e.Element?
  {
    if e.name == [] then st.(root := LoadedInto(e.kids, st.root))
    else st.(hubs := st.hubs[e.name := LoadedInto(e.kids, map[])])
  }

  function LoadHubs(st: Store, elements: seq<Node>): Store
    requires forall e <- elements :: e.Element?
    decreases elements
  {
    if elements == [] then st else LoadHubs(LoadHub(st, elements[0]), elements[1..])
  }

  function LoadDocument(st: Store, doc: seq<Node>): (bool, Store) {
    var configs := ByTag(doc, "config");
    if configs == [] then (false, st)
    else (true, LoadHubs(st, ByTag(configs[0].kids, "propertyhub")))
  }

  // ---- the old text format ---------------------------------------------------------------------

  /** `split(c)`, which keeps empty parts. */
  function Split(s: string, c: char): seq<string> {
    var i := IndexOf(s, c, 0);
    if i == -1 then [s] else [s[..i]] + Split(s[i + 1..], c)
  }

  /**
   * The match at `p` of a bracketed name without a closing bracket, a newline, and at least one
   * character up to the next opening bracket: where the name and the match end.
   */
  function MatchAt(t: string, p: nat): (r: Option<(nat, nat)>)
    requires p < |t|
    ensures r.Some? ==> p + 1 < r.value.0 && r.value.0 + 2 < r.value.1 <= |t|
  {
    var q := IndexOf(t, ']', p + 1);
    if t[p] == '[' && q > p + 1 && q + 2 < |t| && t[q + 1] == '\n' && t[q + 2] != '[' then
      var e := IndexOf(t, '[', q + 2);
      Some((q, if e == -1 then |t| else e))
    else None
  }

  ghost predicate IsNextMatch(t: string, p: nat, s: int) {
    && (s == -1 || (p <= s < |t| && MatchAt(t, s).Some?))
    && forall r: nat :: p <= r < (if s == -1 then |t| else s) ==> MatchAt(t, r).None?
  }

  lemma NextMatchExists(t: string, p: nat)
    ensures exists s :: IsNextMatch(t, p, s)
    decreases |t| - p
  {
    if p >= |t| {
      assert IsNextMatch(t, p, -1);
    } else if MatchAt(t, p).Some? {
      assert IsNextMatch(t, p, p);
    } else {
      NextMatchExists(t, p + 1);
      var s :| IsNextMatch(t, p + 1, s);
      assert IsNextMatch(t, p, s);
    }
  }

  /** Where the leftmost match at or after `p` starts, or -1. */
  ghost function NextMatch(t: string, p: nat): (s: int)
    ensures IsNextMatch(t, p, s)
  {
    NextMatchExists(t, p);
    var s :| IsNextMatch(t, p, s);
    s
  }

  datatype Assignment = Assignment(ns: string, key: string, value: string)

  /** One pair of enclosing quotes goes; a lone quote counts as both. */
  function Stripped(value: string): string {
    if value != [] && value[0] == '"' && value[|value| - 1] == '"' then Mid(value, 1, |value| - 2) else value
  }

  function LineAssignments(ns: string, lines: seq<string>): seq<Assignment> {
    if lines == [] then []
    else
      var line := Split(lines[0], '=');
      (if |line| == 2 then [Assignment(ns, line[0], Stripped(line[1]))] else []) + LineAssignments(ns, lines[1..])
  }

  /** What one match captures: the name, and the text up to the next opening bracket. */
  datatype Capture = Capture(ns: string, body: string)

  function CaptureAt(t: string, s: nat): Capture
    requires s < |t| && MatchAt(t, s).Some?
  {
    var (q, e) := MatchAt(t, s).value;
    Capture(t[s + 1..q], t[q + 2..e])
  }

  /** All captures at or after `p`, in file order. */
  ghost function Captures(t: string, p: nat): seq<Capture>
    decreases |t| - p
  {
    var s := NextMatch(t, p);
    if s == -1 then [] else [CaptureAt(t, s)] + Captures(t, MatchAt(t, s).value.1)
  }

  function CaptureAssignments(captures: seq<Capture>): seq<Assignment> {
    if captures == [] then []
    else LineAssignments(captures[0].ns, Split(captures[0].body, '\n')) + CaptureAssignments(captures[1..])
  }

  /** All settings in file order. */
  ghost function Assignments(t: string, p: nat): seq<Assignment> {
    CaptureAssignments(Captures(t, p))
  }

  /** An assignment creates its hub, but only fills in a value that is missing or invalid. */
  function Merged(st: Store, a: Assignment): Store {
    var hub := if a.ns in st.hubs then st.hubs[a.ns] else map[];
    var hub' := if Lookup(hub, a.key) == Invalid then hub[a.key := Str(a.value)] else hub;
    st.(hubs := st.hubs[a.ns := hub'])
  }

  function MergedAll(st: Store, assignments: seq<Assignment>): Store
    decreases assignments
  {
    if assignments == [] then st else MergedAll(Merged(st, assignments[0]), assignments[1..])
  }

  ghost function Merge(st: Store, text: string): Store {
    MergedAll(st, Assignments(text, 0))
  }
}
