/** The binary KeyValue reader: `ReadAsBinary` and `LoadAsBinary` of
    Utils/KeyValueParser.cs over a byte sequence instead of a stream.

    A container is a run of entries closed by an End tag (8). An entry is a
    tag byte, a NUL-terminated name and a payload chosen by the tag: a nested
    container for tag 0, a NUL-terminated string for 1, four little-endian
    bytes for 2 (signed), 3 (float bits), 4 and 6 (unsigned), eight for 7.
    Tag 5 (wide string) and every tag above 8 are format errors.

    The reader is the source's stream cursor made explicit: every call takes
    the position to start at and returns where it stopped. Three behaviours of
    the source are kept on purpose:
    - a nested container's own success is discarded; the entry is kept, valid
      only if its End tag was reached, and the enclosing container carries on
      from wherever the nested one stopped;
    - after every entry the cursor must still be inside the stream;
    - only the top-level call must end exactly at the end of the stream.
 */
module KeyValueBinary {

  import opened Bytes
  import opened KeyValues

  predicate NoNul(b: seq<byte>)
  {
    forall i :: 0 <= i < |b| ==> b[i] != 0
  }

  function Min(a: int, b: int): int
  {
    if a < b then a else b
  }

  /* ---------- primitive reads ---------- */

  datatype CString = CString(text: seq<byte>, next: nat) | Unterminated

  /** `ReadStringUnicode`: the bytes up to the next NUL, and the position
      after the NUL. */
  function ReadCString(s: seq<byte>, pos: nat): (r: CString)
    requires pos <= |s|
    ensures r.CString? ==> pos < r.next <= |s|
    decreases |s| - pos
  {
    if pos == |s| then Unterminated
    else if s[pos] == 0 then CString([], pos + 1)
    else
      match ReadCString(s, pos + 1)
      case Unterminated => Unterminated
      case CString(t, n) => CString([s[pos]] + t, n)
  }

  /** What `ReadCString` finds: the text is the NUL-free run of bytes before
      the first NUL, and the string is unterminated exactly when no NUL
      follows `pos`. */
  lemma {:induction false} ReadCStringSpec(s: seq<byte>, pos: nat)
    requires pos <= |s|
    ensures var r := ReadCString(s, pos);
            && (r.CString? ==> s[pos..r.next] == r.text + [0] && NoNul(r.text))
            && (r.Unterminated? <==> NoNul(s[pos..]))
    decreases |s| - pos
  {
    if pos < |s| && s[pos] != 0 {
      ReadCStringSpec(s, pos + 1);
      assert s[pos..] == [s[pos]] + s[pos + 1..];
      match ReadCString(s, pos + 1)
      case Unterminated =>
      case CString(t, n) =>
        assert s[pos..n] == [s[pos]] + s[pos + 1..n];
    } else if pos < |s| {
      assert s[pos..pos + 1] == [0];
    }
  }

  /** `input.Read(data, 0, n)` followed by `BitConverter`: the bytes that are
      left, at most `n`, read little-endian into a zeroed buffer. A short read
      leaves the cursor at the end of the stream. */
  function ReadFixed(s: seq<byte>, pos: nat, n: nat): (r: (nat, nat))
    requires pos <= |s|
    ensures r.1 == Min(pos + n, |s|)
    ensures r.1 == pos + n ==> r.0 == LittleEndian(s[pos..pos + n])
    ensures r.0 < Power256(n)
  {
    var next := Min(pos + n, |s|);
    LittleEndianBound(s[pos..next], n);
    (LittleEndian(s[pos..next]), next)
  }

  lemma {:induction false} LittleEndianBound(b: seq<byte>, n: nat)
    requires |b| <= n
    ensures LittleEndian(b) < Power256(n)
  {
    if |b| > 0 {
      LittleEndianBound(b[1..], n - 1);
    } else if n > 0 {
      LittleEndianBound(b, n - 1);
    }
  }

  lemma Power256Widths()
    ensures Power256(4) == 0x1_0000_0000
    ensures Power256(8) == 0x1_0000_0000_0000_0000
  {
    assert Power256(2) == 0x1_0000;
    assert Power256(4) == 0x1_0000_0000;
    assert Power256(6) == 0x1_0000_0000_0000;
  }

  /* ---------- entries and containers ---------- */

  /** A scalar entry as the reader builds it. */
  function Leaf(name: seq<byte>, v: Value): KeyValue
  {
    KeyValue(name, v, true, Null)
  }

  /** One entry's payload: the node it yields and where the cursor is after
      it, or the position at which a `FormatException` was thrown. */
  datatype Step = Entry(child: KeyValue, next: nat) | Fail(at: nat)

  /** The payload of a scalar tag (every tag except None and End). */
  function ReadScalar(s: seq<byte>, tag: byte, name: seq<byte>, p: nat): (r: Step)
    requires p <= |s|
    requires tag != None.Code() && tag != End.Code()
    ensures r.Entry? ==> p <= r.next <= |s|
    ensures r.Fail? ==> p <= r.at <= |s|
  {
    Power256Widths();
    if tag == String.Code() then
      match ReadCString(s, p)
      case Unterminated => Fail(|s|)
      case CString(text, q) => Entry(Leaf(name, StringValue(text)), q)
    else if tag == Int32.Code() then
      var (u, q) := ReadFixed(s, p, 4);
      Entry(Leaf(name, Int32Value(ToInt32(u))), q)
    else if tag == UInt64.Code() then
      var (u, q) := ReadFixed(s, p, 8);
      Entry(Leaf(name, UInt64Value(u)), q)
    else if tag == Float32.Code() then
      var (u, q) := ReadFixed(s, p, 4);
      Entry(Leaf(name, Float32Value(u)), q)
    else if tag == Color.Code() then
      var (u, q) := ReadFixed(s, p, 4);
      Entry(Leaf(name, ColorValue(u)), q)
    else if tag == Pointer.Code() then
      var (u, q) := ReadFixed(s, p, 4);
      Entry(Leaf(name, PointerValue(u)), q)
    else
      // WideString, or a byte that names no type: the name has been read
      Fail(p)
  }

  /** What a scalar payload yields: a valid leaf with the entry's name and a
      value of the tag's type; a format error exactly for a wide string, a
      byte that names no type, or a string with no NUL before the end. */
  lemma ReadScalarSpec(s: seq<byte>, tag: byte, name: seq<byte>, p: nat)
    requires p <= |s|
    requires tag != None.Code() && tag != End.Code()
    ensures var r := ReadScalar(s, tag, name, p);
            && (r.Entry? ==> r.child.name == name && r.child.valid && r.child.children.Null?)
            && (r.Entry? ==> r.child.Type().Code() == tag)
            && (r.Fail? <==> tag == WideString.Code() || tag > End.Code() ||
                             (tag == String.Code() && NoNul(s[p..])))
            && (r.Fail? && tag == String.Code() ==> r.at == |s|)
            && (r.Fail? && tag != String.Code() ==> r.at == p)
            && (r.Entry? && tag == String.Code() ==> NoNul(r.child.value.text))
  {
    ReadCStringSpec(s, p);
  }

  /** What `ReadAsBinary` leaves behind: the children it appended, whether it
      reached its End tag (the node's `Valid`), and the cursor. */
  datatype Read = Read(children: seq<KeyValue>, valid: bool, pos: nat)

  /** A node as the reader builds it: a scalar leaf is valid and has no child
      list; a container has no value and a child list of such nodes; no name
      and no string value contains a NUL. */
  predicate Decoded(kv: KeyValue)
  {
    && NoNul(kv.name)
    && (kv.value.StringValue? ==> NoNul(kv.value.text))
    && if kv.value.NoValue? then
         kv.children.List? && forall c :: c in kv.children.items ==> Decoded(c)
       else
         kv.valid && kv.children.Null?
  }

  /** One entry of a container: its tag (already known not to be End), its
      name, and its payload; a None tag reads a nested container. */
  function ReadEntry(s: seq<byte>, pos: nat): (r: Step)
    requires pos < |s| && s[pos] != End.Code()
    ensures r.Entry? ==> pos < r.next <= |s|
    ensures r.Fail? ==> pos < r.at <= |s|
    decreases |s| - pos, 0
  {
    match ReadCString(s, pos + 1)
    case Unterminated => Fail(|s|)
    case CString(name, p) =>
      if s[pos] == None.Code() then
        // the nested call's own result is discarded; only Valid survives
        var inner := ReadContainer(s, p);
        Entry(KeyValue(name, NoValue, inner.valid, List(inner.children)), inner.pos)
      else
        ReadScalar(s, s[pos], name, p)
  }

  /** `ReadAsBinary` of a container whose first entry starts at `pos`. */
  function ReadContainer(s: seq<byte>, pos: nat): (r: Read)
    requires pos <= |s|
    ensures pos <= r.pos <= |s|
    decreases |s| - pos, 1
  {
    if pos == |s| then
      // the tag read at end of stream; see the README on unterminated reads
      Read([], false, |s|)
    else if s[pos] == End.Code() then
      Read([], true, pos + 1)
    else
      match ReadEntry(s, pos)
      case Fail(at) => Read([], false, at)
      case Entry(child, q) =>
        if q == |s| then
          // `input.Position >= input.Length` after the entry
          Read([], false, |s|)
        else
          var rest := ReadContainer(s, q);
          Read([child] + rest.children, rest.valid, rest.pos)
  }

  /** A container is valid only when its last byte read is an End tag. */
  lemma {:induction false} ValidContainerEndsWithEnd(s: seq<byte>, pos: nat)
    requires pos <= |s|
    ensures var r := ReadContainer(s, pos);
            r.valid ==> pos < r.pos && s[r.pos - 1] == End.Code()
    decreases |s| - pos
  {
    if pos < |s| && s[pos] != End.Code() {
      match ReadEntry(s, pos)
      case Fail(_) =>
      case Entry(_, q) =>
        if q < |s| {
          ValidContainerEndsWithEnd(s, q);
        }
    }
  }

  /** Every node the reader produces has the shape `Decoded` describes. */
  lemma {:induction false} ReadEntryDecoded(s: seq<byte>, pos: nat)
    requires pos < |s| && s[pos] != End.Code()
    ensures var r := ReadEntry(s, pos);
            r.Entry? ==> Decoded(r.child)
    decreases |s| - pos, 0
  {
    ReadCStringSpec(s, pos + 1);
    match ReadCString(s, pos + 1)
    case Unterminated =>
    case CString(name, p) =>
      if s[pos] == None.Code() {
        ReadContainerDecoded(s, p);
      } else {
        ReadScalarSpec(s, s[pos], name, p);
      }
  }

  lemma {:induction false} ReadContainerDecoded(s: seq<byte>, pos: nat)
    requires pos <= |s|
    ensures forall c :: c in ReadContainer(s, pos).children ==> Decoded(c)
    decreases |s| - pos, 1
  {
    if pos < |s| && s[pos] != End.Code() {
      ReadEntryDecoded(s, pos);
      match ReadEntry(s, pos)
      case Fail(_) =>
      case Entry(_, q) =>
        if q < |s| {
          ReadContainerDecoded(s, q);
        }
    }
  }

  datatype Document = NoDocument | Document(root: KeyValue)

  /** `LoadAsBinary` once the file is open: a root node when the top-level
      container reaches its End tag exactly at the end of the stream. */
  function LoadAsBinary(s: seq<byte>): (d: Document)
    ensures d.Document? ==> |s| > 0 && s[|s| - 1] == End.Code()
    ensures d.Document? ==> d.root.valid && d.root.name == RootName() && Decoded(d.root)
    ensures d.Document? ==> d.root.children == List(ReadContainer(s, 0).children)
    ensures d.NoDocument? <==> !ReadContainer(s, 0).valid || ReadContainer(s, 0).pos != |s|
  {
    var r := ReadContainer(s, 0);
    ValidContainerEndsWithEnd(s, 0);
    ReadContainerDecoded(s, 0);
    if r.valid && r.pos == |s| then
      assert NoNul(RootName());
      Document(KeyValue(RootName(), NoValue, true, List(r.children)))
    else
      NoDocument
  }
}
