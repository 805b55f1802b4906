/** The byte layout the reader expects, written out as an encoder, and the
    round trip: reading the encoding of a tree of valid nodes gives the tree
    back. The C# program has no writer; this one exists to pin down
    the reader's format. */
module KeyValueEncoding {

  import opened Bytes
  import opened KeyValues
  import opened KeyValueBinary

  /** A node that can be written: every node valid, containers with a child
      list, leaves without one, no NUL inside a name or a string value. */
  predicate Encodable(kv: KeyValue)
  {
    && kv.valid
    && NoNul(kv.name)
    && (kv.value.StringValue? ==> NoNul(kv.value.text))
    && if kv.value.NoValue? then
         kv.children.List? && forall c :: c in kv.children.items ==> Encodable(c)
       else
         kv.children.Null?
  }

  function EncodePayload(v: Value): (r: seq<byte>)
    requires !v.NoValue?
  {
    match v
    case StringValue(t) => t + [0]
    case Int32Value(i) => LittleEndianBytes(i % 0x1_0000_0000, 4)
    case Float32Value(f) => LittleEndianBytes(f, 4)
    case PointerValue(p) => LittleEndianBytes(p, 4)
    case ColorValue(c) => LittleEndianBytes(c, 4)
    case UInt64Value(u) => LittleEndianBytes(u, 8)
  }

  function EncodeEntry(kv: KeyValue): (r: seq<byte>)
    requires Encodable(kv)
    ensures |r| >= 2
  {
    [kv.Type().Code()] + kv.name + [0] +
    if kv.value.NoValue? then EncodeEntries(kv.children.items) + [End.Code()]
    else EncodePayload(kv.value)
  }

  function EncodeEntries(cs: seq<KeyValue>): (r: seq<byte>)
    requires forall c :: c in cs ==> Encodable(c)
  {
    if cs == [] then [] else EncodeEntry(cs[0]) + EncodeEntries(cs[1..])
  }

  /** The bytes of a document whose root has the given children. */
  function Encode(children: seq<KeyValue>): (r: seq<byte>)
    requires forall c :: c in children ==> Encodable(c)
    ensures |r| > 0 && r[|r| - 1] == End.Code()
  {
    EncodeEntries(children) + [End.Code()]
  }

  /* ---------- slicing helpers ---------- */

  /** `s` holds `a` at `pos`. */
  predicate At(s: seq<byte>, pos: nat, a: seq<byte>)
  {
    pos + |a| <= |s| && forall i :: 0 <= i < |a| ==> s[pos + i] == a[i]
  }

  lemma AtSplit(s: seq<byte>, pos: nat, a: seq<byte>, b: seq<byte>)
    requires At(s, pos, a + b)
    ensures At(s, pos, a) && At(s, pos + |a|, b)
  {
    forall i | 0 <= i < |a| ensures s[pos + i] == a[i] {
      assert (a + b)[i] == a[i];
    }
    forall i | 0 <= i < |b| ensures s[pos + |a| + i] == b[i] {
      assert (a + b)[|a| + i] == b[i];
    }
  }

  lemma {:induction false} ReadsCString(s: seq<byte>, pos: nat, t: seq<byte>)
    requires NoNul(t) && At(s, pos, t + [0])
    ensures ReadCString(s, pos) == CString(t, pos + |t| + 1)
    decreases |t|
  {
    assert s[pos + 0] == (t + [0])[0];
    if |t| > 0 {
      assert At(s, pos + 1, t[1..] + [0]) by {
        forall i | 0 <= i < |t[1..] + [0]| ensures s[pos + 1 + i] == (t[1..] + [0])[i] {
          assert s[pos + (1 + i)] == (t + [0])[1 + i];
        }
      }
      ReadsCString(s, pos + 1, t[1..]);
      assert [t[0]] + t[1..] == t;
    }
  }

  lemma ReadsFixed(s: seq<byte>, pos: nat, v: nat, n: nat)
    requires v < Power256(n) && At(s, pos, LittleEndianBytes(v, n))
    ensures ReadFixed(s, pos, n) == (v, pos + n)
  {
    assert s[pos..pos + n] == LittleEndianBytes(v, n);
    LittleEndianRoundTrip(v, n);
  }

  /* ---------- the round trip ---------- */

  /** An encoded scalar payload reads back as the leaf holding it. */
  lemma ReadsEncodedScalar(s: seq<byte>, name: seq<byte>, p: nat, v: Value)
    requires !v.NoValue? && (v.StringValue? ==> NoNul(v.text)) && At(s, p, EncodePayload(v))
    ensures ReadScalar(s, Leaf(name, v).Type().Code(), name, p) == Entry(Leaf(name, v), p + |EncodePayload(v)|)
  {
    Power256Widths();
    match v
    case StringValue(t) =>
      ReadsCString(s, p, t);
    case Int32Value(i) =>
      ReadsFixed(s, p, i % 0x1_0000_0000, 4);
    case Float32Value(f) =>
      ReadsFixed(s, p, f, 4);
    case PointerValue(x) =>
      ReadsFixed(s, p, x, 4);
    case ColorValue(x) =>
      ReadsFixed(s, p, x, 4);
    case UInt64Value(u) =>
      ReadsFixed(s, p, u, 8);
  }

  /** `ReadEntry` once the tag and the name are known. */
  lemma ReadEntryUnfold(s: seq<byte>, pos: nat, name: seq<byte>, p: nat)
    requires pos < |s| && s[pos] != End.Code() && ReadCString(s, pos + 1) == CString(name, p)
    ensures s[pos] == None.Code() ==>
              var inner := ReadContainer(s, p);
              ReadEntry(s, pos) == Entry(KeyValue(name, NoValue, inner.valid, List(inner.children)), inner.pos)
    ensures s[pos] != None.Code() ==> ReadEntry(s, pos) == ReadScalar(s, s[pos], name, p)
  {
  }

  /** The payload bytes of an entry: a nested container's entries and End
      tag, or a scalar's bytes. */
  function EntryPayload(kv: KeyValue): (r: seq<byte>)
    requires Encodable(kv)
    ensures EncodeEntry(kv) == [kv.Type().Code()] + (kv.name + [0]) + r
    ensures |EncodeEntry(kv)| == |kv.name| + 2 + |r|
  {
    if kv.value.NoValue? then EncodeEntries(kv.children.items) + [End.Code()]
    else EncodePayload(kv.value)
  }

  /** Where the tag, the name and the payload of an encoded entry sit. */
  lemma EntryLayout(s: seq<byte>, pos: nat, tag: byte, name: seq<byte>, payload: seq<byte>)
    requires NoNul(name) && At(s, pos, [tag] + (name + [0]) + payload)
    ensures pos < |s| && s[pos] == tag
    ensures ReadCString(s, pos + 1) == CString(name, pos + |name| + 2)
    ensures At(s, pos + |name| + 2, payload)
  {
    AtSplit(s, pos, [tag] + (name + [0]), payload);
    AtSplit(s, pos, [tag], name + [0]);
    assert s[pos + 0] == [tag][0];
    ReadsCString(s, pos + 1, name);
  }

  /** An encoded entry reads back as exactly that node, and the cursor
      stops right after its bytes. */
  lemma {:induction false} ReadsEncodedEntry(s: seq<byte>, pos: nat, c: KeyValue)
    requires Encodable(c) && At(s, pos, EncodeEntry(c)) && pos + |EncodeEntry(c)| < |s|
    ensures s[pos] != End.Code()
    ensures ReadEntry(s, pos) == Entry(c, pos + |EncodeEntry(c)|)
    decreases c, 2
  {
    EntryLayout(s, pos, c.Type().Code(), c.name, EntryPayload(c));
    if c.value.NoValue? {
      ReadsEncodedNested(s, pos, c);
    } else {
      ReadEntryUnfold(s, pos, c.name, pos + |c.name| + 2);
      ReadsEncodedScalar(s, c.name, pos + |c.name| + 2, c.value);
      assert c == Leaf(c.name, c.value);
    }
  }

  /** The nested-container case of `ReadsEncodedEntry`, once the tag and the
      name have been read. */
  lemma {:induction false} ReadsEncodedNested(s: seq<byte>, pos: nat, c: KeyValue)
    requires Encodable(c) && c.value.NoValue?
    requires pos < |s| && s[pos] == None.Code()
    requires ReadCString(s, pos + 1) == CString(c.name, pos + |c.name| + 2)
    requires At(s, pos + |c.name| + 2, EncodeEntries(c.children.items) + [End.Code()])
    ensures ReadEntry(s, pos) == Entry(c, pos + |c.name| + 2 + |EncodeEntries(c.children.items)| + 1)
    decreases c, 1
  {
    var p := pos + |c.name| + 2;
    ReadEntryUnfold(s, pos, c.name, p);
    ReadsEncodedEntries(s, p, c.children.items);
    assert c == KeyValue(c.name, NoValue, true, List(c.children.items));
  }

  /** `ReadContainer` once its first entry is known to read, to leave the
      cursor inside the stream, and to be followed by `rest`. */
  lemma ReadContainerUnfold(s: seq<byte>, pos: nat, child: KeyValue, q: nat, rest: Read)
    requires pos < |s| && s[pos] != End.Code() && ReadEntry(s, pos) == Entry(child, q) && q < |s|
    requires ReadContainer(s, q) == rest
    ensures ReadContainer(s, pos) == Read([child] + rest.children, rest.valid, rest.pos)
  {
  }

  /** Where the first entry and the rest of a non-empty run of entries sit. */
  lemma EntriesLayout(s: seq<byte>, pos: nat, cs: seq<KeyValue>)
    requires cs != [] && forall c :: c in cs ==> Encodable(c)
    requires At(s, pos, EncodeEntries(cs) + [End.Code()])
    ensures At(s, pos, EncodeEntry(cs[0]))
    ensures At(s, pos + |EncodeEntry(cs[0])|, EncodeEntries(cs[1..]) + [End.Code()])
    ensures |EncodeEntries(cs)| == |EncodeEntry(cs[0])| + |EncodeEntries(cs[1..])|
  {
    var e := EncodeEntry(cs[0]);
    var tail := EncodeEntries(cs[1..]) + [End.Code()];
    assert EncodeEntries(cs) + [End.Code()] == e + tail;
    AtSplit(s, pos, e, tail);
  }

  /** Reading the encoding of `cs` followed by an End tag yields `cs`, marks
      the container valid, and stops right after the End tag. */
  lemma {:induction false} ReadsEncodedEntries(s: seq<byte>, pos: nat, cs: seq<KeyValue>)
    requires forall c :: c in cs ==> Encodable(c)
    requires At(s, pos, EncodeEntries(cs) + [End.Code()])
    ensures ReadContainer(s, pos) == Read(cs, true, pos + |EncodeEntries(cs)| + 1)
    decreases cs, 0
  {
    if cs == [] {
      assert s[pos + 0] == (EncodeEntries(cs) + [End.Code()])[0] == End.Code();
    } else {
      EntriesLayout(s, pos, cs);
      var q := pos + |EncodeEntry(cs[0])|;
      ReadsEncodedEntry(s, pos, cs[0]);
      ReadsEncodedEntries(s, q, cs[1..]);
      ReadContainerUnfold(s, pos, cs[0], q, Read(cs[1..], true, pos + |EncodeEntries(cs)| + 1));
      assert [cs[0]] + cs[1..] == cs;
    }
  }

  /** The round trip: the encoding of a tree of valid nodes loads as that tree. */
  lemma LoadEncoded(children: seq<KeyValue>)
    requires forall c :: c in children ==> Encodable(c)
    ensures LoadAsBinary(Encode(children)) == Document(KeyValue(RootName(), NoValue, true, List(children)))
  {
    var s := Encode(children);
    ReadsEncodedEntries(s, 0, children);
  }

  /** Any byte after the final End tag makes the whole document unreadable,
      even though the tree before it decodes. */
  lemma TrailingBytesRejected(children: seq<KeyValue>, extra: seq<byte>)
    requires forall c :: c in children ==> Encodable(c)
    requires |extra| > 0
    ensures LoadAsBinary(Encode(children) + extra) == NoDocument
  {
    var s := Encode(children) + extra;
    ReadsEncodedEntries(s, 0, children);
  }
}
