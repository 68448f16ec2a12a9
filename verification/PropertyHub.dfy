/** The hub of named values, and the loops that save it to and load it from a document tree. */
module PropertyHubs {
  import opened Bytes
  import opened Decimal
  import opened Dom
  import opened Variants
  import Base64
  import Keys

  class PropertyHub {
    const ns: string
    var data: VariantMap

    constructor (ns: string)
      ensures this.ns == ns && data == map[]
    {
      this.ns := ns;
      data := map[];
    }

    method SetValue(key: string, value: Variant)
      modifies this
      ensures data == old(data)[key := value]
      ensures Value(key) == value && forall k :: k != key ==> Value(k) == old(Value(k))
    {
      data := data[key := value];
    }

    function Value(key: string): (v: Variant)
      reads this
      ensures key in data ==> v == data[key]
      ensures key !in data ==> v == Invalid
    {
      if key in data then data[key] else Invalid
    }

    /** An empty hub is not saved at all. */
    method Serialize() returns (ok: bool, kids: seq<Node>)
      ensures ok <==> data != map[]
      ensures kids == SavedEntries(Map(data), Keys.Sorted(data.Keys))
    {
      ok, kids := SerializeVariantMap(Map(data));
    }

    method Deserialize(kids: seq<Node>)
      modifies this
      ensures data == LoadedInto(kids, old(data))
    {
      data := DeserializeVariantMap(kids, data);
    }
  }

  method SerializeVariantMap(v: Variant) returns (ok: bool, kids: seq<Node>)
    requires v.Map?
    ensures ok <==> v.m != map[]
    ensures kids == SavedEntries(v, Keys.Sorted(v.m.Keys))
    decreases v, 0, 1
  {
    var keys := Keys.Sorted(v.m.Keys);
    if |v.m| == 0 {
      assert v.m.Keys == {};
      return false, [];
    }
    kids := SerializeEntries(v, keys);
    ok := true;
  }

  /** The loop over the keys. */
  method SerializeEntries(v: Variant, keys: seq<string>) returns (kids: seq<Node>)
    requires v.Map? && forall k <- keys :: k in v.m
    ensures kids == SavedEntries(v, keys)
    decreases v, 0, 0
  {
    kids := [];
    for i := 0 to |keys|
      invariant kids + SavedEntries(v, keys[i..]) == SavedEntries(v, keys)
    {
      var key := keys[i];
      ghost var before := kids;
      var saved, sub := SerializeVariant(v.m[key]);
      if saved {
        kids := kids + [Element("node", key, v.m[key].Type(), sub)];
      }
      SavedEntriesStep(v, keys[i..], before, kids);
      assert keys[i..][1..] == keys[i + 1..];
    }
    assert kids + SavedEntries(v, keys[|keys|..]) == kids;
  }

  lemma SavedEntriesStep(v: Variant, keys: seq<string>, before: seq<Node>, after: seq<Node>)
    requires v.Map? && keys != [] && (forall k <- keys :: k in v.m) && after == before + SavedEntry(v, keys[0])
    ensures before + SavedEntries(v, keys) == after + SavedEntries(v, keys[1..])
  {
    Shift(before, SavedEntry(v, keys[0]), SavedEntries(v, keys[1..]));
  }

  method SerializeVariant(v: Variant) returns (ok: bool, kids: seq<Node>)
    ensures ok <==> Saved(v).Some?
    ensures ok ==> kids == Saved(v).value
    decreases v, 1
  {
    if v.Scalar() {
      var str := v.ToText();
      if |str| == 0 {
        return false, [];
      }
      return true, [Text(str)];
    }
    match v
    case StrList(list) => ok, kids := SerializeStringList(list);
    case Bytes(d) => ok, kids := SerializeByteArray(d);
    case Map(_) => ok, kids := SerializeVariantMap(v);
    case _ => return false, [];
  }

  method SerializeStringList(list: seq<string>) returns (ok: bool, kids: seq<Node>)
    ensures ok <==> list != []
    ensures kids == StringElements(list)
  {
    kids := [];
    if |list| == 0 {
      return false, [];
    }
    for i := 0 to |list|
      invariant kids + StringElements(list[i..]) == StringElements(list)
    {
      ghost var before := kids;
      var element := Element("string", "", NoType, [Text(list[i])]);
      kids := kids + [element];
      assert list[i..][1..] == list[i + 1..];
      Shift(before, [element], StringElements(list[i + 1..]));
    }
    ok := true;
  }

  method SerializeByteArray(ba: bytes) returns (ok: bool, kids: seq<Node>)
    ensures ok <==> ba != []
    ensures ok ==> kids == [Text(Base64.Encode(ba))]
  {
    if |ba| == 0 {
      return false, [];
    }
    return true, [Text(Base64.Encode(ba))];
  }

  method DeserializeVariantMap(nodes: seq<Node>, into: VariantMap) returns (m: VariantMap)
    ensures m == LoadedInto(nodes, into)
    decreases nodes, 0
  {
    m := into;
    for i := 0 to |nodes|
      invariant LoadedInto(nodes[i..], m) == LoadedInto(nodes, into)
    {
      var el := nodes[i];
      assert nodes[i..][1..] == nodes[i + 1..] && nodes[i..][0] == el;
      if el.Element? {
        if el.name != [] {
          var ok, v := DeserializeVariant(el);
          if ok {
            m := m[el.name := v];
          }
        }
      }
    }
  }

  method DeserializeVariant(el: Node) returns (ok: bool, v: Variant)
    requires el.Element?
    ensures ok <==> Loaded(el).Some?
    ensures ok ==> v == Loaded(el).value
    decreases el, 1
  {
    v := Invalid;
    if el.typ.Scalar() {
      var value := FromText(el.typ, TextOf(el.kids));
      ok := value.Some?;
      if ok {
        v := value.value;
      }
    } else if el.typ.StringListType? {
      var list := DeserializeStringList(el);
      ok, v := true, StrList(list);
    } else if el.typ.ByteArrayType? {
      var str := TextOf(el.kids);
      ok := |str| != 0;
      v := Bytes(Base64.Decode(str));
    } else if el.typ.MapType? {
      var m := DeserializeVariantMap(el.kids, map[]);
      ok, v := true, Map(m);
    } else {
      ok := false;
    }
  }

  method DeserializeStringList(el: Node) returns (list: seq<string>)
    requires el.Element?
    ensures list == Texts(ByTag(el.kids, "string"))
  {
    list := [];
    var nodes := ByTag(el.kids, "string");
    for i := 0 to |nodes|
      invariant list + Texts(nodes[i..]) == Texts(nodes)
    {
      ghost var before := list;
      list := list + [TextOf(nodes[i].kids)];
      assert nodes[i..][1..] == nodes[i + 1..];
      Shift(before, [TextOf(nodes[i].kids)], Texts(nodes[i + 1..]));
    }
  }
}
