/** Typed values, and the text and tree forms they are saved in. */
module Variants {
  import opened Bytes
  import opened Decimal
  import opened Dom
  import Base64
  import Keys

  type int32 = x: int | -0x8000_0000 <= x < 0x8000_0000
  type uint32 = x: int | 0 <= x < 0x1_0000_0000
  type int64 = x: int | -0x8000_0000_0000_0000 <= x < 0x8000_0000_0000_0000
  type uint64 = x: int | 0 <= x < 0x1_0000_0000_0000_0000

  type VariantMap = map<string, Variant>

  datatype Variant =
    | Invalid
    | Bool(b: bool)
    | Int(i: int32)
    | UInt(u: uint32)
    | LongLong(l: int64)
    | ULongLong(ul: uint64)
    | Str(s: string)
    | StrList(list: seq<string>)
    | Bytes(d: bytes)
    | Map(m: map<string, Variant>)
    | Unsupported(name: string)
  {
    function Type(): TypeName {
      match this
      case Invalid => NoType
      case Bool(_) => BoolType
      case Int(_) => IntType
      case UInt(_) => UIntType
      case LongLong(_) => LongLongType
      case ULongLong(_) => ULongLongType
      case Str(_) => StringType
      case StrList(_) => StringListType
      case Bytes(_) => ByteArrayType
      case Map(_) => MapType
      case Unsupported(name) => OtherType(name)
    }

    predicate Scalar() {
      Bool? || Int? || UInt? || LongLong? || ULongLong? || Str?
    }

    /** `toString()` of a scalar. */
    function ToText(): string
      requires Scalar()
    {
      match this
      case Bool(b) => if b then "true" else "false"
      case Int(i) => Integer(i)
      case UInt(u) => Integer(u)
      case LongLong(l) => Integer(l)
      case ULongLong(ul) => Integer(ul)
      case Str(s) => s
    }

    /** `toStringList()`. */
    function ToStringList(): seq<string> {
      match this case StrList(l) => l case Str(s) => [s] case _ => []
    }
  }

  /** A number fits its type, or there is no conversion. */
  function FromNumber(typ: TypeName, n: int): Option<Variant> {
    if typ.IntType? && -0x8000_0000 <= n < 0x8000_0000 then Some(Int(n))
    else if typ.UIntType? && 0 <= n < 0x1_0000_0000 then Some(UInt(n))
    else if typ.LongLongType? && -0x8000_0000_0000_0000 <= n < 0x8000_0000_0000_0000 then Some(LongLong(n))
    else if typ.ULongLongType? && 0 <= n < 0x1_0000_0000_0000_0000 then Some(ULongLong(n))
    else None
  }

  /** `convert` of a text to one of the scalar types. */
  function FromText(typ: TypeName, text: string): Option<Variant>
    requires typ.Scalar()
  {
    if typ.StringType? then Some(Str(text))
    else if typ.BoolType? then Some(Bool(text != [] && text != "0" && text != "false"))
    else
      var number := ParseInteger(text);
      if number.None? then None else FromNumber(typ, number.value)
  }

  // ---- saving ----------------------------------------------------------------------------------

  function StringElements(list: seq<string>): seq<Node> {
    if list == [] then [] else [Element("string", "", NoType, [Text(list[0])])] + StringElements(list[1..])
  }

  /** The children of the element that a value is saved in, or nothing when it is not saved. */
  function Saved(v: Variant): Option<seq<Node>>
    decreases v, 1
  {
    if v.Scalar() then
      var text := v.ToText();
      if text == [] then None else Some([Text(text)])
    else match v
      case StrList(list) => if list == [] then None else Some(StringElements(list))
      case Bytes(d) => if d == [] then None else Some([Text(Base64.Encode(d))])
      case Map(m) => if m == map[] then None else Some(SavedEntries(v, Keys.Sorted(m.Keys)))
      case _ => None
  }

  function SavedEntries(v: Variant, keys: seq<string>): seq<Node>
    requires v.Map? && forall k <- keys :: k in v.m
    decreases v, 0, |keys|
  {
    if keys == [] then [] else SavedEntry(v, keys[0]) + SavedEntries(v, keys[1..])
  }

  function SavedEntry(v: Variant, key: string): seq<Node>
    requires v.Map? && key in v.m
    decreases v, 0, 0
  {
    match Saved(v.m[key])
    case None => []
    case Some(kids) => [Element("node", key, v.m[key].Type(), kids)]
  }

  // ---- loading ---------------------------------------------------------------------------------

  function Texts(elements: seq<Node>): seq<string>
    requires forall e <- elements :: e.Element?
  {
    if elements == [] then [] else [TextOf(elements[0].kids)] + Texts(elements[1..])
  }

  function Loaded(e: Node): Option<Variant>
    requires e.Element?
    decreases e, 1
  {
    if e.typ.Scalar() then FromText(e.typ, TextOf(e.kids))
    else if e.typ.StringListType? then Some(StrList(Texts(ByTag(e.kids, "string"))))
    else if e.typ.ByteArrayType? then
      var text := TextOf(e.kids);
      if text == [] then None else Some(Bytes(Base64.Decode(text)))
    else if e.typ.MapType? then Some(Map(LoadedInto(e.kids, map[])))
    else None
  }

  /** Loading elements one after the other over what a map holds already. */
  function LoadedInto(kids: seq<Node>, into: VariantMap): VariantMap
    decreases kids, 0
  {
    if kids == [] then into
    else
      var e := kids[0];
      LoadedInto(kids[1..],
                 if e.Text? || e.name == [] then into
                 else match Loaded(e) case None => into case Some(v) => into[e.name := v])
  }

  // ---- what survives ---------------------------------------------------------------------------

  /** What becomes of a value that is saved and loaded, or nothing when it is lost. */
  function Prune(v: Variant): Option<Variant>
    decreases v, 1
  {
    match v
    case Invalid => None
    case Unsupported(_) => None
    case Str(s) => if s == [] then None else Some(v)
    case StrList(list) => if list == [] then None else Some(v)
    case Bytes(d) => if d == [] then None else Some(v)
    case Map(m) => if m == map[] then None else Some(Map(PruneEntries(v)))
    case _ => Some(v)
  }

  function PruneEntries(v: Variant): VariantMap
    requires v.Map?
    decreases v, 0
  {
    map k | k in v.m && k != [] && Prune(v.m[k]).Some? :: Prune(v.m[k]).value
  }

  function PruneMap(m: VariantMap): VariantMap {
    PruneEntries(Map(m))
  }
}
