/** The configuration object: a root hub and a table of shared named hubs. */
module Configs {
  import opened Bytes
  import opened ConfigModel
  import opened Decimal
  import opened Dom
  import opened PropertyHubs
  import opened Variants
  import Keys

  lemma HubElementsStep(views: map<string, VariantMap>, names: seq<string>, done: seq<Node>)
    requires names != [] && forall n <- names :: n in views
    ensures done + HubElements(views, names) == done + Written(names[0], views[names[0]]) + HubElements(views, names[1..])
  {
    Shift(done, Written(names[0], views[names[0]]), HubElements(views, names[1..]));
  }

  lemma LineStep(ns: string, lines: seq<string>, rest: seq<Assignment>)
    requires lines != []
    ensures var line, later := Split(lines[0], '='), LineAssignments(ns, lines[1..]) + rest;
            LineAssignments(ns, lines) + rest
            == if |line| == 2 then [Assignment(ns, line[0], Stripped(line[1]))] + later else later
  {
    var line := Split(lines[0], '=');
    if |line| == 2 {
      Shift([Assignment(ns, line[0], Stripped(line[1]))], LineAssignments(ns, lines[1..]), rest);
    } else {
      assert [] + LineAssignments(ns, lines[1..]) == LineAssignments(ns, lines[1..]);
    }
  }

  /** `indexIn` of the regular expression. */
  method IndexIn(t: string, pos: nat) returns (s: int)
    ensures s == NextMatch(t, pos)
  {
    s := pos;
    while s < |t|
      invariant pos <= s
      invariant forall r: nat :: pos <= r < s && r < |t| ==> MatchAt(t, r).None?
    {
      if MatchAt(t, s).Some? {
        return;
      }
      s := s + 1;
    }
    return -1;
  }

  lemma NextCapture(t: string, p: nat, s: nat)
    requires s < |t| && NextMatch(t, p) == s
    ensures var c := CaptureAt(t, s);
            && c.ns != []
            && Assignments(t, p) == LineAssignments(c.ns, ConfigModel.Split(c.body, '\n'))
                                  + Assignments(t, MatchAt(t, s).value.1)
  {
    assert Captures(t, p)[1..] == Captures(t, MatchAt(t, s).value.1);
  }

  lemma MergedIntoHub(before: Store, st: Store, a: Assignment)
    requires st == before.(hubs := if a.ns in before.hubs then before.hubs else before.hubs[a.ns := map[]])
    ensures a.ns in st.hubs
    ensures Merged(before, a) == if Lookup(st.hubs[a.ns], a.key) == Invalid
                                 then st.(hubs := st.hubs[a.ns := st.hubs[a.ns][a.key := Str(a.value)]])
                                 else st
  {
    assert st.hubs[a.ns := st.hubs[a.ns]] == st.hubs;
  }

  class Config {
    var hubs: map<string, PropertyHub>
    const root: PropertyHub

    /** Every named hub is filed under its own, non-empty namespace. */
    ghost predicate Valid()
      reads this
    {
      root.ns == [] && forall n <- hubs :: n != [] && hubs[n].ns == n
    }

    ghost function View(): Store
      reads this, root, hubs.Values
    {
      Store(root.data, map n | n in hubs :: hubs[n].data)
    }

    constructor ()
      ensures Valid() && View() == FRESH && fresh(root)
    {
      root := new PropertyHub([]);
      hubs := map[];
    }

    method AddPropertyHub(hub: PropertyHub) returns (ok: bool)
      requires Valid()
      modifies `hubs
      ensures Valid()
      ensures ok <==> hub.ns != []
      ensures hubs == if ok then old(hubs)[hub.ns := hub] else old(hubs)
    {
      if |hub.ns| == 0 {
        return false;
      }
      hubs := hubs[hub.ns := hub];
      return true;
    }

    /** What filing a hub with a namespace does to the settings. */
    method FileHub(hub: PropertyHub)
      requires Valid() && hub.ns != []
      modifies `hubs
      ensures Valid() && hubs == old(hubs)[hub.ns := hub]
      ensures View() == old(View()).(hubs := old(View()).hubs[hub.ns := hub.data])
    {
      var added := AddPropertyHub(hub);
      assert View().hubs == old(View()).hubs[hub.ns := hub.data];
    }

    function FindPropertyHub(ns: string): (hub: PropertyHub?)
      reads this
      ensures hub == null <==> ns !in hubs
      ensures hub != null ==> hub == hubs[ns]
    {
      if ns in hubs then hubs[ns] else null
    }

    method Serialize() returns (doc: seq<Node>)
      requires Valid()
      ensures doc == Document(View())
    {
      var kids := SerializeHub(root);
      assert View().hubs.Keys == hubs.Keys;
      var named := SerializeHubs(Keys.Sorted(hubs.Keys));
      doc := [Element("config", [], NoType, kids + named)];
    }

    /** The loop over the named hubs. */
    method SerializeHubs(names: seq<string>) returns (kids: seq<Node>)
      requires Valid() && forall n <- names :: n in hubs
      ensures kids == HubElements(View().hubs, names)
    {
      kids := [];
      ghost var views := View().hubs;
      for i := 0 to |names|
        invariant kids + HubElements(views, names[i..]) == HubElements(views, names)
      {
        var element := SerializeHub(hubs[names[i]]);
        HubElementsStep(views, names[i..], kids);
        kids := kids + element;
        assert names[i..][1..] == names[i + 1..];
      }
      assert kids + HubElements(views, names[|names|..]) == kids;
    }

    /** The body of the saving loop. */
    method SerializeHub(hub: PropertyHub) returns (element: seq<Node>)
      ensures element == Written(hub.ns, hub.data)
    {
      var ok, kids := hub.Serialize();
      element := if ok then [Element("propertyhub", hub.ns, NoType, kids)] else [];
    }

    method Deserialize(doc: seq<Node>) returns (ok: bool)
      requires Valid()
      modifies this, root
      ensures Valid() && (ok, View()) == LoadDocument(old(View()), doc)
      ensures forall n <- hubs :: (n in old(hubs) && hubs[n] == old(hubs[n])) || fresh(hubs[n])
    {
      var configs := ByTag(doc, "config");
      if |configs| == 0 {
        return false;
      }
      var list := ByTag(configs[0].kids, "propertyhub");
      for i := 0 to |list|
        invariant Valid() && root.ns == []
        invariant LoadHubs(View(), list[i..]) == LoadHubs(old(View()), list)
        invariant forall n <- hubs :: (n in old(hubs) && hubs[n] == old(hubs[n])) || fresh(hubs[n])
      {
        assert list[i] in list && list[i..][1..] == list[i + 1..];
        LoadOneHub(list[i]);
      }
      return true;
    }

    /** The body of the loading loop: the root hub is loaded in place, a named one is new. */
    method LoadOneHub(el: Node)
      requires Valid() && el.Element?
      modifies this, root
      ensures Valid() && View() == LoadHub(old(View()), el)
      ensures forall n <- hubs :: (n in old(hubs) && hubs[n] == old(hubs[n])) || fresh(hubs[n])
    {
      if |el.name| == 0 {
        LoadRoot(el.kids);
      } else {
        LoadNamed(el.name, el.kids);
      }
    }

    method LoadRoot(kids: seq<Node>)
      requires Valid()
      modifies root
      ensures Valid() && View() == old(View()).(root := LoadedInto(kids, old(root.data)))
    {
      root.Deserialize(kids);
      assert View().hubs == old(View()).hubs;
    }

    method LoadNamed(name: string, kids: seq<Node>)
      requires Valid() && name != []
      modifies `hubs
      ensures Valid() && View() == old(View()).(hubs := old(View()).hubs[name := LoadedInto(kids, map[])])
      ensures name in hubs && fresh(hubs[name]) && forall n <- hubs :: n != name ==> n in old(hubs) && hubs[n] == old(hubs[n])
    {
      var hub := new PropertyHub(name);
      hub.Deserialize(kids);
      FileHub(hub);
    }

    /** A file that cannot be opened changes nothing. */
    method MergeOldConfig(file: Option<string>) returns (ok: bool)
      requires Valid()
      modifies this, hubs.Values
      ensures Valid() && (ok <==> file.Some?)
      ensures View() == if ok then Merge(old(View()), file.value) else old(View())
    {
      if file.None? {
        return false;
      }
      MergeText(file.value);
      return true;
    }

    /** The loop over the sections of an old configuration file. */
    method MergeText(text: string)
      requires Valid()
      modifies this, hubs.Values
      ensures Valid() && View() == Merge(old(View()), text)
    {
      var pos := 0;
      while true
        invariant Valid()
        invariant forall n <- hubs :: hubs[n] in old(hubs.Values) || fresh(hubs[n])
        invariant MergedAll(View(), Assignments(text, pos)) == Merge(old(View()), text)
        decreases |text| - pos
      {
        var start := IndexIn(text, pos);
        if start == -1 {
          return;
        }
        NextCapture(text, pos, start);
        pos := MatchAt(text, start).value.1;
        MergeCapture(CaptureAt(text, start), Assignments(text, pos));
      }
    }

    /** The body of the section loop. */
    method MergeCapture(c: Capture, ghost rest: seq<Assignment>)
      requires Valid() && c.ns != []
      modifies this, hubs.Values
      ensures Valid()
      ensures forall n <- hubs :: hubs[n] in old(hubs.Values) || fresh(hubs[n])
      ensures MergedAll(View(), rest) == MergedAll(old(View()), LineAssignments(c.ns, ConfigModel.Split(c.body, '\n')) + rest)
    {
      MergeLines(c.ns, ConfigModel.Split(c.body, '\n'), rest);
    }

    method MergeLines(ns: string, lines: seq<string>, ghost rest: seq<Assignment>)
      requires Valid() && ns != []
      modifies this, hubs.Values
      ensures Valid()
      ensures forall n <- hubs :: hubs[n] in old(hubs.Values) || fresh(hubs[n])
      ensures MergedAll(View(), rest) == MergedAll(old(View()), LineAssignments(ns, lines) + rest)
    {
      for i := 0 to |lines|
        invariant Valid()
        invariant forall n <- hubs :: hubs[n] in old(hubs.Values) || fresh(hubs[n])
        invariant MergedAll(View(), LineAssignments(ns, lines[i..]) + rest)
               == MergedAll(old(View()), LineAssignments(ns, lines) + rest)
      {
        var line := ConfigModel.Split(lines[i], '=');
        LineStep(ns, lines[i..], rest);
        assert lines[i..][1..] == lines[i + 1..];
        if |line| == 2 {
          MergeSetting(ns, line[0], Stripped(line[1]));
        }
      }
      assert LineAssignments(ns, lines[|lines|..]) + rest == rest;
    }

    method MergeSetting(ns: string, key: string, value: string)
      requires Valid() && ns != []
      modifies this, hubs.Values
      ensures Valid() && View() == Merged(old(View()), Assignment(ns, key, value))
      ensures forall n <- hubs :: hubs[n] in old(hubs.Values) || fresh(hubs[n])
    {
      var hub := HubFor(ns);
      MergedIntoHub(old(View()), View(), Assignment(ns, key, value));
      assert hub.data == View().hubs[ns];
      if hub.Value(key) == Invalid {
        SetIn(ns, key, Str(value));
      }
    }

    /** Setting a value in one hub leaves all others alone, because no two namespaces share a hub. */
    method SetIn(ns: string, key: string, value: Variant)
      requires Valid() && ns in hubs
      modifies hubs[ns]
      ensures Valid() && View() == old(View()).(hubs := old(View()).hubs[ns := old(View()).hubs[ns][key := value]])
    {
      hubs[ns].SetValue(key, value);
    }

    /** The hub of a namespace, which is created when it is missing. */
    method HubFor(ns: string) returns (hub: PropertyHub)
      requires Valid() && ns != []
      modifies `hubs
      ensures Valid() && ns in hubs && hub == hubs[ns]
      ensures View() == old(View()).(hubs := if ns in old(hubs) then old(View()).hubs else old(View()).hubs[ns := map[]])
      ensures forall n <- hubs :: hubs[n] in old(hubs.Values) || fresh(hubs[n])
    {
      var found := FindPropertyHub(ns);
      if found != null {
        return found;
      }
      hub := new PropertyHub(ns);
      FileHub(hub);
    }
  }
}
