/** The decoded KeyValue node tree and its accessors (Utils/KeyValueParser.cs).

    A node has a name, a typed scalar value (or none, for a container), a
    validity bit, and a child list that is either null (scalar leaves and the
    shared invalid sentinel) or a list (containers and the root). The source
    keeps the type tag and the boxed value in two fields; a decoded node only
    ever pairs them in one of seven ways, and `Value` has one constructor for
    each, so `Type()` recovers the tag.

    Floating-point arithmetic is not modelled: a Float32 is its IEEE-754 bit
    pattern, and every conversion that involves a float is a member of the
    caller-supplied `FloatOps`.
 */
module KeyValues {

  import opened Bytes
  import opened Exceptions

  /** The type tags of the binary format, with their byte codes. */
  datatype KeyValueType = None | String | Int32 | Float32 | Pointer | WideString | Color | UInt64 | End
  {
    function Code(): byte {
      match this
      case None => 0
      case String => 1
      case Int32 => 2
      case Float32 => 3
      case Pointer => 4
      case WideString => 5
      case Color => 6
      case UInt64 => 7
      case End => 8
    }
  }

  /** The boxed `Value` of a node; `NoValue` is the source's `null`. */
  datatype Value =
    | NoValue
    | StringValue(text: seq<byte>)
    | Int32Value(i: int32)
    | Float32Value(bits: uint32)
    | PointerValue(p: uint32)
    | ColorValue(c: uint32)
    | UInt64Value(u: uint64)

  datatype ChildList = Null | List(items: seq<KeyValue>)

  datatype KeyValue = KeyValue(name: seq<byte>, value: Value, valid: bool, children: ChildList)
  {
    /** The tag a node of this value is written with; never End. */
    function Type(): (t: KeyValueType)
      ensures t.Code() < End.Code()
    {
      match value
      case NoValue => None
      case StringValue(_) => String
      case Int32Value(_) => Int32
      case Float32Value(_) => Float32
      case PointerValue(_) => Pointer
      case ColorValue(_) => Color
      case UInt64Value(_) => UInt64
    }
  }

  /** The name a freshly constructed node carries. */
  function RootName(): seq<byte> {
    Ascii("<root>")
  }

  /** The shared sentinel the indexer returns for a missing key. */
  function Invalid(): KeyValue {
    KeyValue(RootName(), NoValue, false, Null)
  }

  /** Bit patterns of the float constants the interpreter uses as defaults. */
  const FloatZero: uint32 := 0
  const FloatMinValue: uint32 := 0xFF7F_FFFF
  const FloatMaxValue: uint32 := 0x7F7F_FFFF

  /** The float operations of the runtime, supplied by the caller. */
  datatype FloatOps = FloatOps(
    truncate: uint32 -> int32,          // (int)f
    format: uint32 -> seq<byte>,        // f.ToString()
    fromInt32: int32 -> uint32,         // (float)i
    fromUInt64: uint64 -> uint32,       // (float)u
    parse: seq<byte> -> (bool, uint32)) // float.TryParse(s, out f)

  /* ---------- the indexer ---------- */

  /** How many of `items` carry `key` as their name, ignoring case. */
  function CountNamed(items: seq<KeyValue>, key: seq<byte>): nat
  {
    if items == [] then 0
    else (if EqualsIgnoreCase(items[0].name, key) then 1 else 0) + CountNamed(items[1..], key)
  }

  /** The children named `key`, in order (LINQ's `Where`). */
  function Named(items: seq<KeyValue>, key: seq<byte>): (r: seq<KeyValue>)
    ensures |r| == CountNamed(items, key)
  {
    if items == [] then []
    else if EqualsIgnoreCase(items[0].name, key) then [items[0]] + Named(items[1..], key)
    else Named(items[1..], key)
  }

  /** The children `Named` keeps are exactly those whose name matches. */
  lemma {:induction false} NamedMembers(items: seq<KeyValue>, key: seq<byte>, c: KeyValue)
    ensures c in Named(items, key) <==> c in items && EqualsIgnoreCase(c.name, key)
  {
    if items != [] {
      NamedMembers(items[1..], key, c);
      assert items == [items[0]] + items[1..];
    }
  }

  /** `kv[key]`: the single child named `key`, the invalid sentinel when there
      is none or `kv` has no child list, and an exception when there are
      several. */
  function Index(kv: KeyValue, key: seq<byte>): (r: Result<KeyValue>)
    ensures kv.children.Null? ==> r == Ok(Invalid())
    ensures kv.children.List? && CountNamed(kv.children.items, key) == 0 ==> r == Ok(Invalid())
    ensures kv.children.List? && CountNamed(kv.children.items, key) == 1 ==>
              r.Ok? && r.value in kv.children.items && EqualsIgnoreCase(r.value.name, key)
    ensures r.Thrown? <==> kv.children.List? && CountNamed(kv.children.items, key) > 1
  {
    match kv.children
    case Null => Ok(Invalid())
    case List(items) =>
      var matches := Named(items, key);
      if |matches| == 0 then Ok(Invalid())
      else if |matches| == 1 then NamedMembers(items, key, matches[0]); Ok(matches[0])
      else Thrown(MoreThanOneMatch)
  }

  /** LINQ's `Any` over the children: is some child named `key`? */
  predicate HasChildNamed(kv: KeyValue, key: seq<byte>)
  {
    kv.children.List? && exists c :: c in kv.children.items && EqualsIgnoreCase(c.name, key)
  }

  /** No two of `items` carry the same name, ignoring case: the first differs
      from every later one, and so on down the list. */
  predicate UniqueNames(items: seq<KeyValue>)
  {
    items != [] ==>
      (forall j :: 0 < j < |items| ==> !EqualsIgnoreCase(items[0].name, items[j].name)) && UniqueNames(items[1..])
  }

  /** A tree in which sibling names are distinct at every level. */
  predicate WellKeyed(kv: KeyValue)
  {
    kv.children.List? ==>
      UniqueNames(kv.children.items) && forall c :: c in kv.children.items ==> WellKeyed(c)
  }

  /** With distinct sibling names at most one child answers a key, so the
      indexer cannot throw. */
  lemma {:induction false} UniqueNamesMatchOnce(items: seq<KeyValue>, key: seq<byte>)
    requires UniqueNames(items)
    ensures CountNamed(items, key) <= 1
  {
    if items != [] {
      if EqualsIgnoreCase(items[0].name, key) {
        forall i | 0 <= i < |items[1..]|
          ensures !EqualsIgnoreCase(items[1..][i].name, key)
        {
          assert items[1..][i] == items[i + 1];
          EqualsIgnoreCaseIsEquivalence(items[i + 1].name, key, items[0].name);
          EqualsIgnoreCaseIsEquivalence(items[0].name, items[i + 1].name, key);
        }
        NoneNamed(items[1..], key);
      } else {
        UniqueNamesMatchOnce(items[1..], key);
      }
    }
  }

  /** No item answers `key`, so none is counted. */
  lemma {:induction false} NoneNamed(items: seq<KeyValue>, key: seq<byte>)
    requires forall i :: 0 <= i < |items| ==> !EqualsIgnoreCase(items[i].name, key)
    ensures CountNamed(items, key) == 0
  {
    if items != [] {
      assert !EqualsIgnoreCase(items[0].name, key);
      assert forall i :: 0 <= i < |items[1..]| ==> items[1..][i] == items[i + 1];
      NoneNamed(items[1..], key);
    }
  }

  /** Lookups in a well-keyed tree never throw, and what they return is
      well keyed again. */
  lemma IndexWellKeyed(kv: KeyValue, key: seq<byte>)
    requires WellKeyed(kv)
    ensures Index(kv, key).Ok? && WellKeyed(Index(kv, key).value)
  {
    if kv.children.List? {
      UniqueNamesMatchOnce(kv.children.items, key);
    }
  }

  /** `HasChildNamed` is "some child matches", the condition under which
      the indexer does not return the sentinel. */
  lemma HasChildNamedCounts(kv: KeyValue, key: seq<byte>)
    ensures HasChildNamed(kv, key) <==> kv.children.List? && CountNamed(kv.children.items, key) > 0
  {
    if kv.children.List? && CountNamed(kv.children.items, key) > 0 {
      NamedMembers(kv.children.items, key, Named(kv.children.items, key)[0]);
    }
    if HasChildNamed(kv, key) {
      var c :| c in kv.children.items && EqualsIgnoreCase(c.name, key);
      NamedMembers(kv.children.items, key, c);
    }
  }

  /* ---------- typed accessors ---------- */

  /** `Value.ToString()` of a scalar value. */
  function ValueText(v: Value, ops: FloatOps): seq<byte>
    requires !v.NoValue?
  {
    match v
    case StringValue(t) => t
    case Int32Value(i) => DecimalText(i)
    case Float32Value(f) => ops.format(f)
    case PointerValue(p) => DecimalText(p)
    case ColorValue(c) => DecimalText(c)
    case UInt64Value(u) => DecimalText(u)
  }

  function AsString(kv: KeyValue, defaultValue: seq<byte>, ops: FloatOps): (r: seq<byte>)
    ensures !kv.valid || kv.value.NoValue? ==> r == defaultValue
    ensures kv.valid && kv.value.StringValue? ==> r == kv.value.text
    ensures kv.valid && kv.value.Int32Value? ==> ParseInt32(r) == Parsed(kv.value.i)
  {
    if !kv.valid || kv.value.NoValue? then defaultValue
    else if kv.value.Int32Value? then
      ParseDecimalText(kv.value.i);
      ValueText(kv.value, ops)
    else
      ValueText(kv.value, ops)
  }

  function AsInteger(kv: KeyValue, defaultValue: int32, ops: FloatOps): (r: int32)
    ensures !kv.valid ==> r == defaultValue
    ensures kv.valid && kv.value.Int32Value? ==> r == kv.value.i
    ensures kv.valid && kv.value.UInt64Value? ==> r % 0x1_0000_0000 == kv.value.u % 0x1_0000_0000
    ensures kv.Type() in {None, Pointer, Color} ==> r == defaultValue
    ensures kv.valid && kv.value.StringValue? ==>
              r == (if ParseInt32(kv.value.text).Parsed? then ParseInt32(kv.value.text).value else defaultValue)
  {
    if !kv.valid then defaultValue
    else
      match kv.value
      case StringValue(t) => (match ParseInt32(t) case Parsed(i) => i case NotANumber => defaultValue)
      case Int32Value(i) => i
      case Float32Value(f) => ops.truncate(f)
      case UInt64Value(u) => Low32AsInt32(u)
      case _ => defaultValue
  }

  function AsBoolean(kv: KeyValue, defaultValue: bool, ops: FloatOps): (r: bool)
    ensures !kv.valid ==> r == defaultValue
    ensures kv.valid && kv.value.Int32Value? ==> (r <==> kv.value.i != 0)
    ensures kv.valid && kv.value.UInt64Value? ==> (r <==> kv.value.u != 0)
    ensures kv.Type() in {None, Pointer, Color} ==> r == defaultValue
  {
    if !kv.valid then defaultValue
    else
      match kv.value
      case StringValue(t) => (match ParseInt32(t) case Parsed(i) => i != 0 case NotANumber => defaultValue)
      case Int32Value(i) => i != 0
      case Float32Value(f) => ops.truncate(f) != 0
      case UInt64Value(u) => u != 0
      case _ => defaultValue
  }

  function AsFloat(kv: KeyValue, defaultValue: uint32, ops: FloatOps): (r: uint32)
    ensures !kv.valid ==> r == defaultValue
    ensures kv.valid && kv.value.Float32Value? ==> r == kv.value.bits
    ensures kv.Type() in {None, Pointer, Color} ==> r == defaultValue
  {
    if !kv.valid then defaultValue
    else
      match kv.value
      case StringValue(t) => (var (ok, f) := ops.parse(t); if ok then f else defaultValue)
      case Int32Value(i) => ops.fromInt32(i)
      case Float32Value(f) => f
      case UInt64Value(u) => ops.fromUInt64(u)
      case _ => defaultValue
  }

  /* ---------- agreement between the accessors ---------- */

  /** On a string node, `AsBoolean` is "`AsInteger` is non-zero" whenever the
      text parses, and both fall back to their defaults when it does not. */
  lemma StringAccessorsAgree(kv: KeyValue, d: int32, b: bool, ops: FloatOps)
    requires kv.valid && kv.value.StringValue?
    ensures ParseInt32(kv.value.text).Parsed? ==> (AsBoolean(kv, b, ops) <==> AsInteger(kv, d, ops) != 0)
    ensures ParseInt32(kv.value.text).NotANumber? ==> AsBoolean(kv, b, ops) == b && AsInteger(kv, d, ops) == d
  {
  }

  /** A string node holding the decimal text of `i` reads as the Int32 node
      holding `i` through every integer-valued accessor. */
  lemma DecimalStringReadsAsInt32(name: seq<byte>, i: int32, d: int32, b: bool, ops: FloatOps)
    ensures var s := KeyValue(name, StringValue(DecimalText(i)), true, Null);
            var n := KeyValue(name, Int32Value(i), true, Null);
            AsInteger(s, d, ops) == AsInteger(n, d, ops) == i &&
            AsBoolean(s, b, ops) == AsBoolean(n, b, ops) &&
            AsString(s, [], ops) == AsString(n, [], ops)
  {
    var s := KeyValue(name, StringValue(DecimalText(i)), true, Null);
    ParseDecimalText(i);
    ParsedStringReads(s, i, d, b, ops);
  }

  /** A string node whose text parses as `i` reads as `i`. */
  lemma ParsedStringReads(kv: KeyValue, i: int32, d: int32, b: bool, ops: FloatOps)
    requires kv.valid && kv.value.StringValue? && ParseInt32(kv.value.text) == Parsed(i)
    ensures AsInteger(kv, d, ops) == i && (AsBoolean(kv, b, ops) <==> i != 0)
  {
  }

  /** `AsInteger` keeps only the low 32 bits of a UInt64, while `AsBoolean`
      looks at all 64: 2^32 reads as integer 0 but as `true`. */
  lemma UInt64HighBitsOnlyReachBoolean(ops: FloatOps)
    ensures var n := KeyValue([], UInt64Value(0x1_0000_0000), true, Null);
            AsInteger(n, 5, ops) == 0 && AsBoolean(n, false, ops)
  {
  }
}
