/** What saved documents look like. */
module Documents {
  import opened ConfigModel
  import opened Decimal
  import opened Dom
  import opened Rounds
  import opened Variants
  import Keys

  /** The names of the elements. */
  function Names(nodes: seq<Node>): seq<string> {
    if nodes == [] then [] else (if nodes[0].Text? then [] else [nodes[0].name]) + Names(nodes[1..])
  }

  /** The keys of the entries that are saved. */
  function KeptKeys(m: VariantMap, keys: seq<string>): seq<string>
    requires forall k <- keys :: k in m
  {
    if keys == [] then [] else (if Lost(m[keys[0]]) then [] else [keys[0]]) + KeptKeys(m, keys[1..])
  }

  /** An entry's element carries its key, its type and what its value is saved as. */
  ghost predicate IsEntry(e: Node, m: VariantMap) {
    e.Element? && e.tag == "node" && e.name in m && e.typ == m[e.name].Type() && Saved(m[e.name]) == Some(e.kids)
  }

  lemma NamesConcat(a: seq<Node>, b: seq<Node>)
    requires |a| <= 1 && forall e <- a :: e.Element?
    ensures Names(a + b) == (if a == [] then [] else [a[0].name]) + Names(b)
  {
    if a == [] {
      assert a + b == b;
    } else {
      assert a[0] in a && a + b == [a[0]] + b && (a + b)[1..] == b;
    }
  }

  /** One element for each entry that is not lost, in the order of the keys. */
  lemma {:induction false} EntriesAsWritten(m: VariantMap, keys: seq<string>)
    requires forall k <- keys :: k in m
    ensures forall e <- SavedEntries(Map(m), keys) :: IsEntry(e, m)
    ensures Names(SavedEntries(Map(m), keys)) == KeptKeys(m, keys)
    decreases |keys|
  {
    if keys != [] {
      var k := keys[0];
      LostIsUnsaved(m[k]);
      EntriesAsWritten(m, keys[1..]);
      NamesConcat(SavedEntry(Map(m), k), SavedEntries(Map(m), keys[1..]));
    }
  }

  lemma {:induction false} KeptKeysAscend(m: VariantMap, keys: seq<string>)
    requires Keys.Ascending(keys) && forall k <- keys :: k in m
    ensures Keys.Ascending(KeptKeys(m, keys)) && forall k :: k in KeptKeys(m, keys) <==> k in keys && !Lost(m[k])
  {
    if keys != [] {
      var rest := KeptKeys(m, keys[1..]);
      KeptKeysAscend(m, keys[1..]);
      assert keys == [keys[0]] + keys[1..];
      if Lost(m[keys[0]]) {
        assert [] + rest == rest;
      } else {
        Keys.AscendingCons(keys[0], rest);
      }
    }
  }

  /** A map is saved as one element for each of its entries that is not lost, in ascending order of the keys. */
  lemma MapAsWritten(m: VariantMap)
    ensures var nodes := SavedEntries(Map(m), Keys.Sorted(m.Keys));
            && (forall e <- nodes :: IsEntry(e, m)) && Keys.Ascending(Names(nodes))
            && forall k :: k in Names(nodes) <==> k in m && !Lost(m[k])
  {
    var keys := Keys.Sorted(m.Keys);
    EntriesAsWritten(m, keys);
    Keys.SortedAscends(m.Keys);
    KeptKeysAscend(m, keys);
  }

  /** A text for each scalar: words for booleans, plain decimal numerals for numbers. */
  lemma ScalarAsWritten(v: Variant)
    requires v.Scalar() && Saved(v).Some?
    ensures |Saved(v).value| == 1 && Saved(v).value[0].Text?
    ensures var text := Saved(v).value[0].data;
            match v
            case Bool(b) => text == if b then "true" else "false"
            case Str(s) => text == s
            case Int(n) => IsNumeral(text, n)
            case UInt(n) => IsNumeral(text, n)
            case LongLong(n) => IsNumeral(text, n)
            case ULongLong(n) => IsNumeral(text, n)
            case _ => false
  {
    match v
    case Int(n) => IntegerIsNumeral(n);
    case UInt(n) => IntegerIsNumeral(n);
    case LongLong(n) => IntegerIsNumeral(n);
    case ULongLong(n) => IntegerIsNumeral(n);
    case _ =>
  }

  /** Digits that denote the number, without a leading zero, behind a minus sign if it is negative. */
  ghost predicate IsNumeral(text: string, n: int) {
    var digits := if n < 0 && text != [] then text[1..] else text;
    && (n < 0 ==> text != [] && text[0] == '-')
    && digits != [] && (forall c <- digits :: '0' <= c <= '9') && Denoted(digits) == (if n < 0 then -n else n)
    && (digits[0] == '0' ==> digits == "0")
  }

  lemma IntegerIsNumeral(n: int)
    ensures IsNumeral(Integer(n), n)
  {
    if n < 0 {
      NaturalDenotes(-n);
      assert Integer(n)[1..] == Natural(-n);
    } else {
      NaturalDenotes(n);
    }
  }

  /** One element without attributes for each string, around its text. */
  lemma {:induction false} StringsAsWritten(list: seq<string>)
    ensures |StringElements(list)| == |list|
    ensures forall i :: 0 <= i < |list| ==> StringElements(list)[i] == Element("string", [], NoType, [Text(list[i])])
  {
    if list != [] {
      StringsAsWritten(list[1..]);
    }
  }

  // ---- configurations --------------------------------------------------------------------------

  /** The namespaces of the hubs that are not empty. */
  function KeptNames(hubs: map<string, VariantMap>, names: seq<string>): seq<string>
    requires forall n <- names :: n in hubs
  {
    if names == [] then [] else (if hubs[names[0]] == map[] then [] else [names[0]]) + KeptNames(hubs, names[1..])
  }

  ghost predicate IsHub(e: Node, ns: string, m: VariantMap) {
    e.Element? && e.tag == "propertyhub" && e.name == ns && e.kids == SavedEntries(Map(m), Keys.Sorted(m.Keys))
  }

  lemma {:induction false} HubsAsWritten(hubs: map<string, VariantMap>, names: seq<string>)
    requires forall n <- names :: n in hubs
    ensures Names(HubElements(hubs, names)) == KeptNames(hubs, names)
    ensures forall e <- HubElements(hubs, names) :: e.name in hubs && IsHub(e, e.name, hubs[e.name])
  {
    if names != [] {
      HubsAsWritten(hubs, names[1..]);
      NamesConcat(ConfigModel.Written(names[0], hubs[names[0]]), HubElements(hubs, names[1..]));
    }
  }

  lemma {:induction false} KeptNamesAscend(hubs: map<string, VariantMap>, names: seq<string>)
    requires Keys.Ascending(names) && forall n <- names :: n in hubs
    ensures Keys.Ascending(KeptNames(hubs, names))
    ensures forall n :: n in KeptNames(hubs, names) <==> n in names && hubs[n] != map[]
  {
    if names != [] {
      var rest := KeptNames(hubs, names[1..]);
      KeptNamesAscend(hubs, names[1..]);
      assert names == [names[0]] + names[1..];
      if hubs[names[0]] == map[] {
        assert [] + rest == rest;
      } else {
        Keys.AscendingCons(names[0], rest);
      }
    }
  }

  /** The root hub, if it is not empty, comes first and has no name; then each non-empty named hub, in ascending order. */
  lemma StoreAsWritten(st: Store)
    ensures var nodes := SavedStore(st);
            var named := if st.root == map[] then nodes else nodes[1..];
            && (st.root != map[] ==> nodes != [] && IsHub(nodes[0], [], st.root))
            && (forall e <- named :: e.Element? && e.name in st.hubs && IsHub(e, e.name, st.hubs[e.name]))
            && Keys.Ascending(Names(named)) && forall n :: n in Names(named) <==> n in st.hubs && st.hubs[n] != map[]
  {
    var names := Keys.Sorted(st.hubs.Keys);
    var elements := HubElements(st.hubs, names);
    HubsAsWritten(st.hubs, names);
    Keys.SortedAscends(st.hubs.Keys);
    KeptNamesAscend(st.hubs, names);
    if st.root == map[] {
      assert SavedStore(st) == [] + elements == elements;
    } else {
      assert SavedStore(st) == [HubElement([], st.root)] + elements;
    }
  }
}
