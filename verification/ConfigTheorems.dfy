/** Saving and loading a configuration, and merging old files into it. */
module ConfigTheorems {
  import opened Bytes
  import opened ConfigModel
  import opened Decimal
  import opened Dom
  import opened Persistence
  import opened Variants
  import Keys

  // ---- save and load ---------------------------------------------------------------------------

  function PrunedHubs(hubs: map<string, VariantMap>): map<string, VariantMap> {
    map n | n in hubs && hubs[n] != map[] :: PruneMap(hubs[n])
  }

  lemma {:induction false} ByTagConcat(a: seq<Node>, b: seq<Node>, tag: string)
    ensures ByTag(a + b, tag) == ByTag(a, tag) + ByTag(b, tag)
  {
    if a == [] {
      assert a + b == b;
    } else {
      ByTagConcat(a[1..], b, tag);
      assert (a + b)[1..] == a[1..] + b;
      Shift(ByTagAt(a[0], tag), ByTag(a[1..], tag), ByTag(b, tag));
    }
  }

  lemma {:induction false} NoTagInStrings(list: seq<string>, tag: string)
    requires tag != "string"
    ensures ByTag(StringElements(list), tag) == []
  {
    if list != [] {
      NoTagInStrings(list[1..], tag);
      NoTagInText(list[0], tag);
    }
  }

  lemma NoTagInText(s: string, tag: string)
    ensures ByTag([Text(s)], tag) == []
  {
    assert [Text(s)][1..] == [];
  }

  /** Saved values consist of "node" and "string" elements only. */
  lemma {:induction false} NoTagInSaved(v: Variant, tag: string)
    requires tag != "node" && tag != "string"
    ensures Saved(v).Some? ==> ByTag(Saved(v).value, tag) == []
    decreases v, 1
  {
    if v.Map? {
      NoTagInEntries(v, Keys.Sorted(v.m.Keys), tag);
    } else if v.StrList? {
      NoTagInStrings(v.list, tag);
    } else if Saved(v).Some? {
      NoTagInText(Saved(v).value[0].data, tag);
    }
  }

  lemma {:induction false} NoTagInEntries(v: Variant, keys: seq<string>, tag: string)
    requires v.Map? && (forall k <- keys :: k in v.m) && tag != "node" && tag != "string"
    ensures ByTag(SavedEntries(v, keys), tag) == []
    decreases v, 0, |keys|
  {
    if keys != [] {
      NoTagInSaved(v.m[keys[0]], tag);
      NoTagInEntries(v, keys[1..], tag);
      ByTagConcat(SavedEntry(v, keys[0]), SavedEntries(v, keys[1..]), tag);
      var entry := SavedEntry(v, keys[0]);
      if entry != [] {
        assert entry[1..] == [];
      }
    }
  }

  lemma HubIsFound(ns: string, m: VariantMap)
    ensures ByTag([HubElement(ns, m)], "propertyhub") == [HubElement(ns, m)]
  {
    var e := HubElement(ns, m);
    assert "propertyhub"[0] != "node"[0] && "propertyhub"[0] != "string"[0];
    NoTagInEntries(Map(m), Keys.Sorted(m.Keys), "propertyhub");
    assert [e][1..] == [];
  }

  lemma {:induction false} HubsAreFound(hubs: map<string, VariantMap>, names: seq<string>)
    requires forall n <- names :: n in hubs
    ensures ByTag(HubElements(hubs, names), "propertyhub") == HubElements(hubs, names)
    decreases names
  {
    if names != [] {
      var m := hubs[names[0]];
      HubsAreFound(hubs, names[1..]);
      HubIsFound(names[0], m);
      ByTagConcat(Written(names[0], m), HubElements(hubs, names[1..]), "propertyhub");
    }
  }

  /** The elements that loading goes through are the elements that saving wrote. */
  lemma ElementsAreFound(st: Store)
    ensures ByTag(SavedStore(st), "propertyhub") == SavedStore(st)
    ensures var configs := ByTag(Document(st), "config");
            configs != [] && configs[0].kids == SavedStore(st)
  {
    HubIsFound([], st.root);
    HubsAreFound(st.hubs, Keys.Sorted(st.hubs.Keys));
    ByTagConcat(Written([], st.root), HubElements(st.hubs, Keys.Sorted(st.hubs.Keys)), "propertyhub");
  }

  lemma LoadHubsCons(st: Store, first: Node, rest: seq<Node>)
    requires first.Element? && forall e <- rest :: e.Element?
    ensures LoadHubs(st, [first] + rest) == LoadHubs(LoadHub(st, first), rest)
  {
    assert ([first] + rest)[1..] == rest;
  }

  lemma NamedHubIsReplaced(st: Store, n: string, m: VariantMap)
    requires n != []
    ensures LoadHub(st, HubElement(n, m)) == st.(hubs := st.hubs[n := PruneMap(m)])
  {
    SaveThenLoad(m, map[]);
    EmptyPlus(PruneMap(m));
  }

  /** One hub is loaded, unless it was empty and has no element. */
  lemma HubIsLoaded(st: Store, hubs: map<string, VariantMap>, n: string, rest: seq<Node>)
    requires n in hubs && n != [] && forall e <- rest :: e.Element?
    ensures LoadHubs(st, Written(n, hubs[n]) + rest) == LoadHubs(st.(hubs := WithEntry(st.hubs, PrunedHubs(hubs), n)), rest)
  {
    if hubs[n] == map[] {
      assert Written(n, hubs[n]) + rest == rest;
    } else {
      LoadHubsCons(st, HubElement(n, hubs[n]), rest);
      NamedHubIsReplaced(st, n, hubs[n]);
    }
  }

  lemma {:induction false} HubsAreLoaded(st: Store, hubs: map<string, VariantMap>, names: seq<string>)
    requires forall n <- names :: n in hubs && n != []
    ensures LoadHubs(st, HubElements(hubs, names)) == st.(hubs := st.hubs + Restrict(PrunedHubs(hubs), names))
    decreases names
  {
    if names == [] {
      assert st.hubs + Restrict(PrunedHubs(hubs), names) == st.hubs;
    } else {
      HubIsLoaded(st, hubs, names[0], HubElements(hubs, names[1..]));
      HubsAreLoaded(st.(hubs := WithEntry(st.hubs, PrunedHubs(hubs), names[0])), hubs, names[1..]);
      RestrictCons(PrunedHubs(hubs), names, st.hubs);
    }
  }

  /**
   * Loading a saved store over any other: the root hub gains the pruned root entries, and each
   * non-empty named hub is replaced by its pruned form. Root and named hubs never mix.
   */
  lemma StoreRoundTrip(st: Store, over: Store)
    requires [] !in st.hubs
    ensures LoadDocument(over, Document(st))
         == (true, Store(over.root + PruneMap(st.root), over.hubs + PrunedHubs(st.hubs)))
  {
    DocumentIsLoaded(st, over);
    RootIsLoaded(st, over);
    NamedHubsAreLoaded(st.hubs, over.(root := over.root + PruneMap(st.root)));
  }

  lemma DocumentIsLoaded(st: Store, over: Store)
    ensures LoadDocument(over, Document(st)) == (true, LoadHubs(over, SavedStore(st)))
  {
    ElementsAreFound(st);
  }

  lemma NamedHubsAreLoaded(hubs: map<string, VariantMap>, over: Store)
    requires [] !in hubs
    ensures LoadHubs(over, HubElements(hubs, Keys.Sorted(hubs.Keys))) == over.(hubs := over.hubs + PrunedHubs(hubs))
  {
    var names := Keys.Sorted(hubs.Keys);
    HubsAreLoaded(over, hubs, names);
    RestrictAll(PrunedHubs(hubs), names);
  }

  lemma RootIsExtended(over: Store, m: VariantMap)
    ensures LoadHub(over, HubElement([], m)) == over.(root := over.root + PruneMap(m))
  {
    SaveThenLoad(m, over.root);
  }

  lemma RootIsLoaded(st: Store, over: Store)
    ensures LoadHubs(over, SavedStore(st))
         == LoadHubs(over.(root := over.root + PruneMap(st.root)), HubElements(st.hubs, Keys.Sorted(st.hubs.Keys)))
  {
    var rest := HubElements(st.hubs, Keys.Sorted(st.hubs.Keys));
    if st.root == map[] {
      assert SavedStore(st) == rest;
      assert PruneMap(st.root) == map[];
      EmptyPlus(over.root);
    } else {
      assert SavedStore(st) == [HubElement([], st.root)] + rest;
      RootIsExtended(over, st.root);
      LoadHubsCons(over, HubElement([], st.root), rest);
    }
  }

  /** What a fresh configuration holds after it has loaded the document. */
  function Restarted(st: Store): Store {
    LoadDocument(FRESH, Document(st)).1
  }

  function Survivor(v: Variant): Variant {
    match Prune(v) case None => Invalid case Some(w) => w
  }

  lemma SurvivorIsLookedUp(m: VariantMap, key: string)
    ensures Lookup(PruneMap(m), key) == if key == [] then Invalid else Survivor(Lookup(m, key))
  {
    assert Survivor(Invalid) == Invalid;
  }

  lemma RestartedStore(st: Store)
    requires [] !in st.hubs
    ensures Restarted(st) == Store(PruneMap(st.root), PrunedHubs(st.hubs))
  {
    StoreRoundTrip(st, FRESH);
    EmptyPlus(PruneMap(st.root));
    EmptyPlus(PrunedHubs(st.hubs));
  }

  /** Every setting of the restarted configuration is the pruned original. */
  lemma SettingsRoundTrip(st: Store, ns: string, key: string)
    requires [] !in st.hubs
    ensures Setting(Restarted(st), ns, key) == if key == [] then Invalid else Survivor(Setting(st, ns, key))
    ensures Lookup(Restarted(st).root, key) == if key == [] then Invalid else Survivor(Lookup(st.root, key))
  {
    RestartedStore(st);
    SurvivorIsLookedUp(st.root, key);
    if ns in st.hubs {
      SurvivorIsLookedUp(st.hubs[ns], key);
    } else {
      assert Survivor(Invalid) == Invalid;
    }
  }

  // ---- merging ---------------------------------------------------------------------------------

  /** The value that the first assignment to a setting gives it. */
  function FirstValue(assignments: seq<Assignment>, ns: string, key: string): Variant {
    if assignments == [] then Invalid
    else if assignments[0].ns == ns && assignments[0].key == key then Str(assignments[0].value)
    else FirstValue(assignments[1..], ns, key)
  }

  /** A valid setting is never overwritten; a missing one takes the first assignment to it. */
  lemma {:induction false} FirstAssignmentWins(st: Store, assignments: seq<Assignment>, ns: string, key: string)
    ensures Setting(MergedAll(st, assignments), ns, key)
         == if Setting(st, ns, key) != Invalid then Setting(st, ns, key) else FirstValue(assignments, ns, key)
    ensures MergedAll(st, assignments).root == st.root
    decreases assignments
  {
    if assignments != [] {
      FirstAssignmentWins(Merged(st, assignments[0]), assignments[1..], ns, key);
    }
  }

  ghost predicate Settled(st: Store, assignments: seq<Assignment>) {
    forall a <- assignments :: a.ns in st.hubs && Lookup(st.hubs[a.ns], a.key) != Invalid
  }

  lemma {:induction false} MergeKeepsSettled(st: Store, assignments: seq<Assignment>, done: seq<Assignment>)
    requires Settled(st, done)
    ensures Settled(MergedAll(st, assignments), done + assignments)
    decreases assignments
  {
    if assignments == [] {
      assert done + assignments == done;
    } else {
      var a := assignments[0];
      var next := Merged(st, a);
      assert Settled(next, done + [a]) by {
        forall b | b in done + [a]
          ensures b.ns in next.hubs && Lookup(next.hubs[b.ns], b.key) != Invalid
        {
          assert b in done || b == a;
        }
      }
      MergeKeepsSettled(next, assignments[1..], done + [a]);
      assert done + [a] + assignments[1..] == done + assignments;
    }
  }

  lemma {:induction false} SettledMergeIsIdle(st: Store, assignments: seq<Assignment>)
    requires Settled(st, assignments)
    ensures MergedAll(st, assignments) == st
    decreases assignments
  {
    if assignments != [] {
      var a := assignments[0];
      assert st.hubs[a.ns := st.hubs[a.ns]] == st.hubs;
      SettledMergeIsIdle(st, assignments[1..]);
    }
  }

  /** Merging a file a second time changes nothing. */
  lemma MergeIsIdempotent(st: Store, text: string)
    ensures Merge(Merge(st, text), text) == Merge(st, text)
  {
    var assignments := Assignments(text, 0);
    MergeKeepsSettled(st, assignments, []);
    assert [] + assignments == assignments;
    SettledMergeIsIdle(MergedAll(st, assignments), assignments);
  }

  /** After any file: the previous valid value, otherwise the first one assigned in the file. */
  lemma MergeIsFirstWins(st: Store, text: string, ns: string, key: string)
    ensures Setting(Merge(st, text), ns, key)
         == if Setting(st, ns, key) != Invalid then Setting(st, ns, key) else FirstValue(Assignments(text, 0), ns, key)
    ensures Merge(st, text).root == st.root
  {
    FirstAssignmentWins(st, Assignments(text, 0), ns, key);
  }

  // ---- other documents -------------------------------------------------------------------------

  /** A document is loaded exactly when it has a configuration element at some depth. */
  lemma LoadingNeedsConfig(st: Store, doc: seq<Node>)
    ensures LoadDocument(st, doc).0 <==> exists e: Node :: Below(e, doc) && e.Element? && e.tag == "config"
    ensures !LoadDocument(st, doc).0 ==> LoadDocument(st, doc).1 == st
  {
    var found := ByTag(doc, "config");
    if found != [] {
      ByTagFindsAll(doc, "config", found[0]);
      assert found[0] in found;
    } else {
      forall e: Node | Below(e, doc) && e.Element? && e.tag == "config"
        ensures false
      {
        ByTagFindsAll(doc, "config", e);
      }
    }
  }

  /** The last element of a named hub replaces what came before; all of the root hub's are loaded in turn. */
  lemma {:induction false} LastHubDecides(st: Store, elements: seq<Node>, e: Node)
    requires (forall x <- elements :: x.Element?) && e.Element?
    ensures LoadHubs(st, elements + [e]) == LoadHub(LoadHubs(st, elements), e)
    decreases |elements|
  {
    if elements == [] {
      assert elements + [e] == [e] && [e][1..] == [];
    } else {
      LastHubDecides(LoadHub(st, elements[0]), elements[1..], e);
      assert (elements + [e])[0] == elements[0] && (elements + [e])[1..] == elements[1..] + [e];
    }
  }
}
