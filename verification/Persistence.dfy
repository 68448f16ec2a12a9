/** Saving and loading loses exactly what `Prune` drops. */
module Persistence {
  import opened Decimal
  import opened Dom
  import opened Variants
  import Base64
  import Keys

  lemma BoolRoundTrip(b: bool)
    ensures FromText(BoolType, Bool(b).ToText()) == Some(Bool(b)) && Bool(b).ToText() != []
  {
    assert "false"[0] != "true"[0];
  }

  lemma ScalarRoundTrip(v: Variant)
    requires v.Scalar()
    ensures v.Type().Scalar() && FromText(v.Type(), v.ToText()) == Some(v)
    ensures v.ToText() == [] <==> v == Str([])
  {
    match v
    case Bool(b) => BoolRoundTrip(b);
    case Int(n) => IntegerRoundTrip(n);
    case UInt(n) => IntegerRoundTrip(n);
    case LongLong(n) => IntegerRoundTrip(n);
    case ULongLong(n) => IntegerRoundTrip(n);
    case _ =>
  }

  lemma {:induction false} StringsRoundTrip(list: seq<string>)
    ensures Texts(ByTag(StringElements(list), "string")) == list
  {
    if list != [] {
      var e := Element("string", "", NoType, [Text(list[0])]);
      StringsRoundTrip(list[1..]);
      assert StringElements(list)[1..] == StringElements(list[1..]);
      assert ByTag(e.kids, "string") == [] by {
        assert e.kids[1..] == [];
      }
      assert TextOf(e.kids) == list[0] by {
        assert e.kids[1..] == [] && list[0] + [] == list[0];
      }
    }
  }

  lemma TextOfOne(s: string)
    ensures TextOf([Text(s)]) == s
  {
    assert [Text(s)][1..] == [] && s + [] == s;
  }

  /** A value that is saved is loaded as its pruned form; one that is not saved is pruned away. */
  ghost predicate Faithful(v: Variant) {
    match Saved(v)
    case None => Prune(v) == None
    case Some(kids) => forall name :: Loaded(Element("node", name, v.Type(), kids)) == Prune(v)
  }

  lemma ScalarIsFaithful(v: Variant)
    requires v.Scalar()
    ensures Faithful(v)
  {
    ScalarRoundTrip(v);
    TextOfOne(v.ToText());
  }

  lemma LeafIsFaithful(v: Variant)
    requires v.StrList? || v.Bytes?
    ensures Faithful(v)
  {
    if v.StrList? {
      StringsRoundTrip(v.list);
    } else {
      Base64.RoundTrip(v.d);
      TextOfOne(Base64.Encode(v.d));
    }
  }

  function Restrict<V>(m: map<string, V>, keys: seq<string>): map<string, V> {
    map k | k in m && k in keys :: m[k]
  }

  function WithEntry<V>(into: map<string, V>, m: map<string, V>, key: string): map<string, V> {
    if key in m then into[key := m[key]] else into
  }

  lemma EmptyPlus<V>(m: map<string, V>)
    ensures map[] + m == m && m + map[] == m
  {
  }

  lemma RestrictAll<V>(m: map<string, V>, keys: seq<string>)
    requires forall k <- m :: k in keys
    ensures Restrict(m, keys) == m && map[] + Restrict(m, keys) == m
  {
  }

  lemma RestrictCons<V>(m: map<string, V>, keys: seq<string>, into: map<string, V>)
    requires keys != []
    ensures WithEntry(into, m, keys[0]) + Restrict(m, keys[1..]) == into + Restrict(m, keys)
  {
    assert keys == [keys[0]] + keys[1..];
  }

  lemma EntryIsLoaded(v: Variant, key: string, rest: seq<Node>, into: VariantMap)
    requires v.Map? && key in v.m && Faithful(v.m[key])
    ensures LoadedInto(SavedEntry(v, key) + rest, into) == LoadedInto(rest, WithEntry(into, PruneEntries(v), key))
  {
    var entry := SavedEntry(v, key);
    if entry == [] {
      assert entry + rest == rest;
    } else {
      assert (entry + rest)[1..] == rest && (entry + rest)[0] == entry[0];
    }
  }

  lemma LoadedMap(name: string, kids: seq<Node>)
    ensures Loaded(Element("node", name, MapType, kids)) == Some(Map(LoadedInto(kids, map[])))
  {
  }

  lemma MapForms(v: Variant)
    requires v.Map?
    ensures Saved(v) == if v.m == map[] then None else Some(SavedEntries(v, Keys.Sorted(v.m.Keys)))
    ensures Prune(v) == if v.m == map[] then None else Some(Map(PruneEntries(v)))
  {
    assert v == Map(v.m);
  }

  lemma MapIsFaithful(v: Variant)
    requires v.Map? && LoadedInto(SavedEntries(v, Keys.Sorted(v.m.Keys)), map[]) == PruneEntries(v)
    ensures Faithful(v)
  {
    MapForms(v);
    if v.m != map[] {
      var kids := SavedEntries(v, Keys.Sorted(v.m.Keys));
      forall name
        ensures Loaded(Element("node", name, v.Type(), kids)) == Prune(v)
      {
        LoadedMap(name, kids);
      }
    }
  }

  lemma {:induction false} SavedIsLoaded(v: Variant)
    ensures Faithful(v)
    decreases v, 1
  {
    if v.Scalar() {
      ScalarIsFaithful(v);
    } else if v.Map? {
      var keys := Keys.Sorted(v.m.Keys);
      EntriesAreLoaded(v, keys, map[]);
      RestrictAll(PruneEntries(v), keys);
      MapIsFaithful(v);
    } else if v.StrList? || v.Bytes? {
      LeafIsFaithful(v);
    }
  }

  lemma {:induction false} EntriesAreLoaded(v: Variant, keys: seq<string>, into: VariantMap)
    requires v.Map? && forall k <- keys :: k in v.m
    ensures LoadedInto(SavedEntries(v, keys), into) == into + Restrict(PruneEntries(v), keys)
    decreases v, 0, |keys|
  {
    var pruned := PruneEntries(v);
    if keys == [] {
      assert into + Restrict(pruned, keys) == into;
    } else {
      SavedIsLoaded(v.m[keys[0]]);
      EntryIsLoaded(v, keys[0], SavedEntries(v, keys[1..]), into);
      EntriesAreLoaded(v, keys[1..], WithEntry(into, pruned, keys[0]));
      RestrictCons(pruned, keys, into);
    }
  }

  /** A hub loads a saved map over what it holds: the pruned entries win, all others stay. */
  lemma SaveThenLoad(m: VariantMap, into: VariantMap)
    ensures LoadedInto(SavedEntries(Map(m), Keys.Sorted(m.Keys)), into) == into + PruneMap(m)
  {
    var keys := Keys.Sorted(m.Keys);
    EntriesAreLoaded(Map(m), keys, into);
    RestrictAll(PruneMap(m), keys);
  }

  // ---- other texts, other documents ------------------------------------------------------------

  /** The numbers of a type. */
  predicate InRange(typ: TypeName, n: int) {
    match typ
    case IntType => -0x8000_0000 <= n <= 0x7fff_ffff
    case UIntType => 0 <= n <= 0xffff_ffff
    case LongLongType => -0x8000_0000_0000_0000 <= n <= 0x7fff_ffff_ffff_ffff
    case ULongLongType => 0 <= n <= 0xffff_ffff_ffff_ffff
    case _ => false
  }

  /** A numeral is loaded exactly when its number fits the type. */
  lemma NumbersFit(typ: TypeName, n: int)
    requires typ.Scalar() && !typ.BoolType? && !typ.StringType?
    ensures FromText(typ, Integer(n)).Some? <==> InRange(typ, n)
    ensures InRange(typ, n) ==> FromText(typ, Integer(n)).value.Type() == typ
                                && FromText(typ, Integer(n)).value.ToText() == Integer(n)
  {
    IntegerRoundTrip(n);
  }

  /** Any text but the empty one, "0" and "false" is true. */
  lemma TextsAsBooleans(text: string)
    ensures FromText(BoolType, text) == Some(Bool(!(text in {"", "0", "false"})))
  {
  }

  /** The last element with a name decides; elements without a name or a value and texts are passed over. */
  lemma {:induction false} LastElementDecides(kids: seq<Node>, e: Node, into: VariantMap)
    ensures LoadedInto(kids + [e], into)
         == if e.Element? && e.name != [] && Loaded(e).Some? then LoadedInto(kids, into)[e.name := Loaded(e).value]
            else LoadedInto(kids, into)
    decreases |kids|
  {
    if kids == [] {
      assert kids + [e] == [e] && [e][1..] == [];
    } else {
      var first := kids[0];
      var next := if first.Text? || first.name == [] then into
                  else match Loaded(first) case None => into case Some(v) => into[first.name := v];
      LastElementDecides(kids[1..], e, next);
      assert (kids + [e])[0] == first && (kids + [e])[1..] == kids[1..] + [e];
    }
  }

  /** Which elements have no value: those of no known type, empty byte arrays, and numbers that are none or do not fit. */
  lemma NoValue(e: Node)
    requires e.Element?
    ensures e.typ.NoType? || e.typ.OtherType? ==> Loaded(e) == None
    ensures e.typ.ByteArrayType? ==> (Loaded(e) == None <==> TextOf(e.kids) == [])
    ensures e.typ.StringType? || e.typ.BoolType? || e.typ.StringListType? || e.typ.MapType? ==> Loaded(e).Some?
    ensures e.typ.Scalar() && !e.typ.StringType? && !e.typ.BoolType? ==>
              (Loaded(e).Some? <==> ParseInteger(TextOf(e.kids)).Some? && InRange(e.typ, ParseInteger(TextOf(e.kids)).value))
  {
  }
}
