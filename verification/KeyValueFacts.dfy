/** Properties of the binary KeyValue reader: how a container ends, what a
    scalar payload occupies, which errors stop a container and which do not
    reach its parent, and a few documents worked through byte by byte. */
module KeyValueFacts {

  import opened Bytes
  import opened Exceptions
  import opened KeyValues
  import opened KeyValueBinary
  import opened KeyValueEncoding

  /* ---------- containers ---------- */

  /** An End tag alone is an empty, valid container. */
  lemma EndTagClosesContainer(s: seq<byte>, pos: nat)
    requires pos < |s| && s[pos] == End.Code()
    ensures ReadContainer(s, pos) == Read([], true, pos + 1)
  {
  }

  /** The stream `[8]` loads as a valid root with an empty child list. */
  lemma EndOnlyDocument()
    ensures LoadAsBinary([End.Code()]) == Document(KeyValue(RootName(), NoValue, true, List([])))
  {
    EndTagClosesContainer([End.Code()], 0);
  }

  /** A format error in an entry ends its container: the read from that
      entry on adds no children (those read before it stay), the container
      is invalid, and the cursor is left where the error was raised. */
  lemma FailingEntryFailsContainer(s: seq<byte>, pos: nat)
    requires pos < |s| && s[pos] != End.Code() && ReadEntry(s, pos).Fail?
    ensures ReadContainer(s, pos) == Read([], false, ReadEntry(s, pos).at)
  {
  }

  /** A format error after an entry has been read ends the container there:
      it is invalid, but keeps the child read before the error. */
  lemma LaterFailureKeepsEarlierChildren(s: seq<byte>, pos: nat)
    requires pos < |s| && s[pos] != End.Code() && ReadEntry(s, pos).Entry?
    requires var q := ReadEntry(s, pos).next; q < |s| && s[q] != End.Code() && ReadEntry(s, q).Fail?
    ensures var q := ReadEntry(s, pos).next;
            ReadContainer(s, pos) == Read([ReadEntry(s, pos).child], false, ReadEntry(s, q).at)
  {
    var q := ReadEntry(s, pos).next;
    FailingEntryFailsContainer(s, q);
    ReadContainerUnfold(s, pos, ReadEntry(s, pos).child, q, ReadContainer(s, q));
  }

  /** A wide-string tag, or a byte that names no type, is such a format error
      once its name has been read. */
  lemma UnsupportedTagFails(s: seq<byte>, pos: nat)
    requires pos < |s| && (s[pos] == WideString.Code() || s[pos] > End.Code())
    ensures ReadEntry(s, pos).Fail?
    ensures !ReadContainer(s, pos).valid && ReadContainer(s, pos).children == []
  {
    match ReadCString(s, pos + 1)
    case Unterminated =>
    case CString(name, p) =>
      ReadScalarSpec(s, s[pos], name, p);
  }

  /** An entry that leaves the cursor at the end of the stream is not kept,
      and its container fails there. */
  lemma EntryAtEndOfStreamFails(s: seq<byte>, pos: nat)
    requires pos < |s| && s[pos] != End.Code()
    requires ReadEntry(s, pos).Entry? && ReadEntry(s, pos).next == |s|
    ensures ReadContainer(s, pos) == Read([], false, |s|)
  {
  }

  /** A nested container is kept whatever became of it: the child records
      only whether its End tag was reached, and the parent carries on from
      where the nested read stopped, so the parent's own outcome does not
      depend on the child's. */
  lemma NestedOutcomeStaysInChild(s: seq<byte>, pos: nat)
    requires pos < |s| && s[pos] == None.Code() && ReadCString(s, pos + 1).CString?
    requires ReadContainer(s, ReadCString(s, pos + 1).next).pos < |s|
    ensures var inner := ReadContainer(s, ReadCString(s, pos + 1).next);
            var child := KeyValue(ReadCString(s, pos + 1).text, NoValue, inner.valid, List(inner.children));
            var rest := ReadContainer(s, inner.pos);
            ReadContainer(s, pos) == Read([child] + rest.children, rest.valid, rest.pos)
  {
    var name := ReadCString(s, pos + 1).text;
    var p := ReadCString(s, pos + 1).next;
    ReadEntryUnfold(s, pos, name, p);
  }

  /* ---------- scalar payloads ---------- */

  /** How many bytes each scalar payload occupies when the stream holds
      them, and the value read from them: four little-endian bytes for Int32
      (two's complement), Float32, Pointer and Color, eight for UInt64. */
  lemma ScalarPayloadWidths(s: seq<byte>, name: seq<byte>, p: nat)
    requires p <= |s|
    ensures p + 4 <= |s| ==>
              var b := LittleEndian(s[p..p + 4]);
              && ReadScalar(s, Int32.Code(), name, p) == Entry(Leaf(name, Int32Value(ToInt32(b))), p + 4)
              && ReadScalar(s, Float32.Code(), name, p) == Entry(Leaf(name, Float32Value(b)), p + 4)
              && ReadScalar(s, Pointer.Code(), name, p) == Entry(Leaf(name, PointerValue(b)), p + 4)
              && ReadScalar(s, Color.Code(), name, p) == Entry(Leaf(name, ColorValue(b)), p + 4)
    ensures p + 8 <= |s| ==>
              ReadScalar(s, UInt64.Code(), name, p) == Entry(Leaf(name, UInt64Value(LittleEndian(s[p..p + 8]))), p + 8)
  {
    Power256Widths();
  }

  /** A string payload ends at its NUL, and the value is the bytes before it. */
  lemma StringPayload(s: seq<byte>, name: seq<byte>, p: nat, t: seq<byte>)
    requires NoNul(t) && At(s, p, t + [0])
    ensures ReadScalar(s, String.Code(), name, p) == Entry(Leaf(name, StringValue(t)), p + |t| + 1)
  {
    ReadsCString(s, p, t);
  }

  /** A short fixed-width payload moves the cursor to the end of the stream;
      the entry is then dropped and its container fails. */
  lemma ShortPayloadFailsContainer(s: seq<byte>, pos: nat, name: seq<byte>, p: nat)
    requires pos < |s| && s[pos] in {Int32.Code(), Float32.Code(), Pointer.Code(), Color.Code()}
    requires ReadCString(s, pos + 1) == CString(name, p) && p + 4 > |s|
    ensures ReadContainer(s, pos) == Read([], false, |s|)
  {
    ReadEntryUnfold(s, pos, name, p);
    EntryAtEndOfStreamFails(s, pos);
  }

  /* ---------- worked documents ---------- */

  /** `x` = Int32 7 followed by the End tag: one valid leaf, read back as 7. */
  lemma Int32Document(ops: FloatOps)
    ensures var d := LoadAsBinary([2, 'x' as int, 0, 7, 0, 0, 0, 8]);
            && d == Document(KeyValue(RootName(), NoValue, true, List([Leaf(['x' as int], Int32Value(7))])))
            && AsInteger(d.root.children.items[0], -1, ops) == 7
  {
    var x := Leaf(['x' as int], Int32Value(7));
    assert LittleEndianBytes(7, 4) == [7, 0, 0, 0];
    assert Encode([x]) == [2, 'x' as int, 0, 7, 0, 0, 0, 8] by {
      assert EncodePayload(x.value) == [7, 0, 0, 0];
      assert EncodeEntry(x) == [2, 'x' as int, 0] + [7, 0, 0, 0];
      assert EncodeEntries([x][1..]) == [];
      assert EncodeEntries([x]) == EncodeEntry(x);
    }
    LoadEncoded([x]);
  }

  /** The same bytes without the End tag: the cursor reaches the end of the
      stream right after the value, and nothing loads. */
  lemma TruncatedDocument()
    ensures LoadAsBinary([2, 'x' as int, 0, 7, 0, 0, 0]) == NoDocument
  {
    var s: seq<byte> := [2, 'x' as int, 0, 7, 0, 0, 0];
    ReadsCString(s, 1, ['x' as int]);
    ReadEntryUnfold(s, 0, ['x' as int], 3);
    EntryAtEndOfStreamFails(s, 0);
  }

  /** A wide string as the first entry of a nested container `a`, followed
      by an End tag: the document still loads, with `a` kept as an invalid,
      empty container. It loads only because the parent, which resumes
      right after the wide string's name, finds an End tag there. */
  lemma NestedWideStringDocument()
    ensures LoadAsBinary([0, 'a' as int, 0, 5, 'w' as int, 0, 8])
         == Document(KeyValue(RootName(), NoValue, true, List([KeyValue(['a' as int], NoValue, false, List([]))])))
  {
    var s: seq<byte> := [0, 'a' as int, 0, 5, 'w' as int, 0, 8];
    ReadsCString(s, 1, ['a' as int]);
    ReadsCString(s, 4, ['w' as int]);
    ReadEntryUnfold(s, 3, ['w' as int], 6);
    ReadScalarSpec(s, 5, ['w' as int], 6);
    FailingEntryFailsContainer(s, 3);
    NestedOutcomeStaysInChild(s, 0);
    EndTagClosesContainer(s, 6);
  }

  /** The same nested wide string followed by a UTF-16 payload "h": the
      parent resumes after the name `w` and reads the payload byte `h` as a
      tag that names no type, so the whole document is unreadable. */
  lemma NestedWideStringPayloadDocument()
    ensures LoadAsBinary([0, 'a' as int, 0, 5, 'w' as int, 0, 'h' as int, 0, 0, 0, 8, 8]) == NoDocument
  {
    var s: seq<byte> := [0, 'a' as int, 0, 5, 'w' as int, 0, 'h' as int, 0, 0, 0, 8, 8];
    ReadsCString(s, 1, ['a' as int]);
    UnsupportedTagFails(s, 3);
    assert ReadEntry(s, 3).at == 6 by {
      ReadsCString(s, 4, ['w' as int]);
      ReadEntryUnfold(s, 3, ['w' as int], 6);
      ReadScalarSpec(s, 5, ['w' as int], 6);
    }
    FailingEntryFailsContainer(s, 3);
    UnsupportedTagFails(s, 6);
    NestedOutcomeStaysInChild(s, 0);
  }

  /** The bytes of a container `a` holding an Int32 `x` = 7 and then a wide
      string `w`. */
  function PartlyReadBytes(): seq<byte> {
    [0, 'a' as int, 0, 2, 'x' as int, 0, 7, 0, 0, 0, 5, 'w' as int, 0, 8]
  }

  /** A step of `PartlyReadContainerDocument`: inside `a`, the first entry
      is the leaf `x` = 7. */
  lemma PartlyReadLeaf()
    ensures ReadEntry(PartlyReadBytes(), 3) == Entry(Leaf(['x' as int], Int32Value(7)), 10)
  {
    var s := PartlyReadBytes();
    ReadsCString(s, 4, ['x' as int]);
    ReadEntryUnfold(s, 3, ['x' as int], 6);
    ScalarPayloadWidths(s, ['x' as int], 6);
    PartlyReadPayload();
    SevenLittleEndian();
  }

  /** A step of `PartlyReadLeaf`: the payload bytes of `x`. */
  lemma PartlyReadPayload()
    ensures PartlyReadBytes()[6..10] == [7, 0, 0, 0]
  {
  }

  /** A step of `PartlyReadLeaf`: the four bytes of the Int32 7. */
  lemma SevenLittleEndian()
    ensures LittleEndian([7, 0, 0, 0]) == 7
  {
    assert [7, 0, 0, 0][1..] == [0, 0, 0] && [0, 0, 0][1..] == [0, 0] && [0, 0][1..] == [0];
  }

  /** A step of `PartlyReadContainerDocument`: the second entry of `a`, a
      wide string, fails right after its name. */
  lemma PartlyReadWide()
    ensures ReadEntry(PartlyReadBytes(), 10) == Fail(13)
  {
    var s := PartlyReadBytes();
    ReadsCString(s, 11, ['w' as int]);
    ReadEntryUnfold(s, 10, ['w' as int], 13);
    ReadScalarSpec(s, 5, ['w' as int], 13);
  }

  /** A step of `PartlyReadContainerDocument`: so `a` keeps `x` and is
      invalid, and the cursor stops after `w`. */
  lemma PartlyReadInner()
    ensures ReadContainer(PartlyReadBytes(), 3) == Read([Leaf(['x' as int], Int32Value(7))], false, 13)
  {
    PartlyReadLeaf();
    PartlyReadWide();
    LaterFailureKeepsEarlierChildren(PartlyReadBytes(), 3);
  }

  /** A step of `PartlyReadContainerDocument`: the name of `a`, and the End
      tag after it. */
  lemma PartlyReadFrame()
    ensures ReadCString(PartlyReadBytes(), 1) == CString(['a' as int], 3)
    ensures ReadContainer(PartlyReadBytes(), 13) == Read([], true, 14)
  {
    ReadsCString(PartlyReadBytes(), 1, ['a' as int]);
    EndTagClosesContainer(PartlyReadBytes(), 13);
  }

  /** A step of `PartlyReadContainerDocument`: at the top level, `a`, kept
      with what it holds, then the End tag. */
  lemma PartlyReadRoot()
    ensures var a := KeyValue(['a' as int], NoValue, false, List([Leaf(['x' as int], Int32Value(7))]));
            ReadContainer(PartlyReadBytes(), 0) == Read([a], true, 14)
  {
    PartlyReadFrame();
    PartlyReadInner();
    NestedOutcomeStaysInChild(PartlyReadBytes(), 0);
  }

  /** A wide string after the Int32 `x` inside a nested container `a`: the
      document loads, and `a` is invalid but still holds `x`, so a lookup
      of `x` in it still finds the value. */
  lemma PartlyReadContainerDocument()
    ensures var d := LoadAsBinary(PartlyReadBytes());
            var x := Leaf(['x' as int], Int32Value(7));
            && d == Document(KeyValue(RootName(), NoValue, true, List([KeyValue(['a' as int], NoValue, false, List([x]))])))
            && Index(d.root.children.items[0], ['x' as int]) == Ok(x)
  {
    var x := Leaf(['x' as int], Int32Value(7));
    PartlyReadRoot();
    assert Named([x], ['x' as int]) == [x];
  }

  /** The same wide string at the top level stops the whole document. */
  lemma TopLevelWideStringDocument()
    ensures LoadAsBinary([5, 'w' as int, 0, 8]) == NoDocument
  {
    UnsupportedTagFails([5, 'w' as int, 0, 8], 0);
  }
}
