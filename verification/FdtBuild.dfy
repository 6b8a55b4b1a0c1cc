/** The builder of internal/fdt/build.go: two growing buffers and a table of string offsets. */
module FdtBuild {
  import opened Bytes
  import opened ByteStrings
  import opened Common
  import opened FdtFormat
  import opened FdtReader
  import opened FdtLayout

  /** Offsets handed out earlier stay as they were. */
  ghost predicate Grows(off: Offsets, off': Offsets) {
    off.Keys <= off'.Keys && forall k :: k in off ==> off'[k] == off[k]
  }

  lemma {:induction false} PropsStable(keys: seq<Name>, props: map<Name, Property>, off: Offsets, off': Offsets)
    requires forall k :: k in keys ==> k in props && k in off
    requires Grows(off, off')
    ensures PropsBytes(keys, props, off') == PropsBytes(keys, props, off)
  {
    if keys != [] { PropsStable(keys[1..], props, off, off'); }
  }

  /** A laid-out node does not change as the string table grows. */
  lemma {:induction false} NodeStable(n: Node, off: Offsets, off': Offsets)
    requires Names(n) <= off.Keys && Grows(off, off')
    ensures NodeBytes(n, off') == NodeBytes(n, off)
  {
    SortedMembers(n.props.Keys);
    PropsStable(Sorted(n.props.Keys), n.props, off, off');
    ChildrenStable(n.children, off, off');
  }

  lemma {:induction false} ChildrenStable(cs: seq<Node>, off: Offsets, off': Offsets)
    requires NamesOf(cs) <= off.Keys && Grows(off, off')
    ensures ChildrenBytes(cs, off') == ChildrenBytes(cs, off)
  {
    if cs != [] {
      NodeStable(cs[0], off, off');
      ChildrenStable(cs[1..], off, off');
    }
  }

  lemma {:induction false} PropsAppend(keys: seq<Name>, k: Name, props: map<Name, Property>, off: Offsets)
    requires forall x :: x in keys + [k] ==> x in props && x in off
    ensures PropsBytes(keys + [k], props, off) == PropsBytes(keys, props, off) + PropBytes(k, Encode(props[k]), off)
  {
    if keys == [] {
      assert [k][1..] == [];
    } else {
      assert (keys + [k])[1..] == keys[1..] + [k];
      PropsAppend(keys[1..], k, props, off);
      Assoc(PropBytes(keys[0], Encode(props[keys[0]]), off), PropsBytes(keys[1..], props, off),
            PropBytes(k, Encode(props[k]), off));
    }
  }

  lemma {:induction false} NamesAppend(cs: seq<Node>, c: Node)
    ensures NamesOf(cs + [c]) == NamesOf(cs) + Names(c)
  {
    if cs == [] {
      assert [c][1..] == [];
    } else {
      assert (cs + [c])[1..] == cs[1..] + [c];
      NamesAppend(cs[1..], c);
    }
  }

  lemma {:induction false} ChildrenAppend(cs: seq<Node>, c: Node, off: Offsets)
    requires NamesOf(cs + [c]) <= off.Keys && NamesOf(cs) <= off.Keys && Names(c) <= off.Keys
    ensures ChildrenBytes(cs + [c], off) == ChildrenBytes(cs, off) + NodeBytes(c, off)
  {
    if cs == [] {
      assert [c][1..] == [];
    } else {
      assert (cs + [c])[1..] == cs[1..] + [c];
      NamesAppend(cs[1..], c);
      ChildrenAppend(cs[1..], c, off);
      Assoc(NodeBytes(cs[0], off), ChildrenBytes(cs[1..], off), NodeBytes(c, off));
    }
  }

  lemma {:induction false} NodeConcat(base: seq<byte>, n: Node, off: Offsets)
    requires Names(n) <= off.Keys
    ensures base + NodeHead(n.name) + NodeProps(n, off) + ChildrenBytes(n.children, off) + BE32(END_NODE) ==
            base + NodeBytes(n, off)
  {
    var h, p, c, e := NodeHead(n.name), NodeProps(n, off), ChildrenBytes(n.children, off), BE32(END_NODE);
    Assoc(base + h + p, c, e);
    Assoc(base + h, p, c + e);
    Assoc(base, h, p + (c + e));
  }

  lemma {:induction false} HoldsInPrefix(s: seq<byte>, s': seq<byte>, at: nat, part: seq<byte>)
    requires Holds(s, at, part) && s <= s'
    ensures Holds(s', at, part)
  {}

  /** Adding a name behind the table keeps every offset valid and makes the new one valid. */
  lemma {:induction false} TableExtends(names: seq<byte>, off: Offsets, k: Name)
    requires OffsetsValid(names, off) && k !in off && |names| < TWO32
    ensures OffsetsValid(names + k + [0], off[k := Wrap32(|names|)])
  {
    var names' := names + k + [0];
    forall x | x in off ensures Holds(names', off[x], x + [0]) {
      HoldsInPrefix(names, names', off[x], x + [0]);
    }
    assert names' == names + (k + [0]);
    forall i | 0 <= i < |k + [0]| ensures names'[|names| + i] == (k + [0])[i] {}
  }

  lemma {:induction false} JoinStringsTail(ss: seq<Name>, i: nat)
    requires i < |ss|
    ensures JoinStrings(ss[i..]) == ss[i] + [0] + JoinStrings(ss[i + 1..])
  {
    assert ss[i..][1..] == ss[i + 1..];
  }

  lemma {:induction false} JoinWordsTail(ws: seq<nat>, width: nat, i: nat)
    requires i < |ws|
    ensures JoinWords(ws[i..], width) == ToBE(ws[i], width) + JoinWords(ws[i + 1..], width)
  {
    assert ws[i..][1..] == ws[i + 1..];
  }

  method EncodeStrings(ss: seq<Name>) returns (data: seq<byte>)
    ensures data == JoinStrings(ss)
  {
    data := [];
    var i := 0;
    while i < |ss|
      invariant i <= |ss| && data + JoinStrings(ss[i..]) == JoinStrings(ss)
    {
      JoinStringsTail(ss, i);
      data := data + ss[i];
      data := data + [0];
      i := i + 1;
    }
  }

  method EncodeWords(ws: seq<nat>, width: nat) returns (data: seq<byte>)
    ensures data == JoinWords(ws, width)
  {
    data := [];
    var i := 0;
    while i < |ws|
      invariant i <= |ws| && data + JoinWords(ws[i..], width) == JoinWords(ws, width)
    {
      JoinWordsTail(ws, width, i);
      data := data + ToBE(ws[i], width);
      i := i + 1;
    }
  }

  method Put32(blob: array<byte>, at: nat, n: u32)
    requires at + 4 <= blob.Length
    modifies blob
    ensures forall i :: 0 <= i < at || at + 4 <= i < blob.Length ==> blob[i] == old(blob[i])
    ensures forall i :: at <= i < at + 4 ==> blob[i] == BE32(n)[i - at]
  {
    var w := BE32(n);
    blob[at], blob[at + 1], blob[at + 2], blob[at + 3] := w[0], w[1], w[2], w[3];
  }

  method CopyInto(blob: array<byte>, at: nat, part: seq<byte>)
    requires at + |part| <= blob.Length
    modifies blob
    ensures forall i :: 0 <= i < at || at + |part| <= i < blob.Length ==> blob[i] == old(blob[i])
    ensures forall i :: at <= i < at + |part| ==> blob[i] == part[i - at]
  {
    for i := 0 to |part|
      invariant forall j :: 0 <= j < at || at + i <= j < blob.Length ==> blob[j] == old(blob[j])
      invariant forall j :: at <= j < at + i ==> blob[j] == part[j - at]
    {
      blob[at + i] := part[i];
    }
  }

  /** The ten header words, in file order. */
  function HeaderFields(structLen: nat, stringsLen: nat): (fields: seq<u32>)
    ensures |fields| == 10
  {
    var offStruct := HEADER_SIZE + 16;
    [MAGIC, Wrap32(offStruct + structLen + stringsLen), offStruct, Wrap32(offStruct + structLen), HEADER_SIZE,
     VERSION, LAST_COMP_VERSION, 0, Wrap32(stringsLen), Wrap32(structLen)]
  }

  function Header(fields: seq<u32>): (s: seq<byte>)
    ensures |s| == 4 * |fields|
  {
    seq(4 * |fields|, j requires 0 <= j < 4 * |fields| => BE32(fields[j / 4])[j % 4])
  }

  function Blob(structBlock: seq<byte>, names: seq<byte>): seq<byte> {
    Header(HeaderFields(|structBlock|, |names|)) + Zeros(16) + structBlock + names
  }

  lemma {:induction false} BlobAt(blob: seq<byte>, structBlock: seq<byte>, names: seq<byte>)
    requires |blob| == 56 + |structBlock| + |names|
    requires forall j :: 0 <= j < 40 ==> blob[j] == BE32(HeaderFields(|structBlock|, |names|)[j / 4])[j % 4]
    requires forall j :: 40 <= j < 56 ==> blob[j] == 0
    requires forall j :: 56 <= j < 56 + |structBlock| ==> blob[j] == structBlock[j - 56]
    requires forall j :: 56 + |structBlock| <= j < |blob| ==> blob[j] == names[j - 56 - |structBlock|]
    ensures blob == Blob(structBlock, names)
  {
    assert blob[..40] == Header(HeaderFields(|structBlock|, |names|));
    assert blob[40..56] == Zeros(16);
    assert blob[56..56 + |structBlock|] == structBlock;
    assert blob[56 + |structBlock|..] == names;
  }

  /** The blob, allocated at its full size and filled in place. */
  method Assemble(structBytes: seq<byte>, stringsBytes: seq<byte>) returns (blob: array<byte>)
    ensures fresh(blob) && blob[..] == Blob(structBytes, stringsBytes)
  {
    var offStruct := HEADER_SIZE + 16;
    var offStrings := offStruct + |structBytes|;
    var totalSize := offStrings + |stringsBytes|;
    blob := new byte[totalSize](_ => 0);
    var fields := HeaderFields(|structBytes|, |stringsBytes|);
    for i := 0 to |fields|
      invariant forall j :: 40 <= j < totalSize ==> blob[j] == 0
      invariant forall j :: 0 <= j < 4 * i ==> blob[j] == BE32(fields[j / 4])[j % 4]
    {
      Put32(blob, 4 * i, fields[i]);
    }
    CopyInto(blob, offStruct, structBytes);
    CopyInto(blob, offStrings, stringsBytes);
    BlobAt(blob[..], structBytes, stringsBytes);
  }

  class Builder {
    var structBuf: seq<byte>
    var strings: seq<byte>
    var stringsOff: Offsets

    constructor ()
      ensures structBuf == [] && strings == [] && stringsOff == map[]
    {
      structBuf, strings, stringsOff := [], [], map[];
    }

    /** While the table is below 4 GiB every offset handed out is valid. */
    ghost predicate TableValid()
      reads this
    {
      |strings| < TWO32 ==> OffsetsValid(strings, stringsOff)
    }

    method WriteToken(token: u32)
      modifies this`structBuf
      ensures structBuf == old(structBuf) + BE32(token)
    {
      structBuf := structBuf + BE32(token);
    }

    method PadStruct()
      modifies this`structBuf
      ensures structBuf == old(structBuf) + Zeros(Align4(|old(structBuf)|) - |old(structBuf)|)
    {
      while |structBuf| % 4 != 0
        invariant |old(structBuf)| <= |structBuf| <= Align4(|old(structBuf)|)
        invariant structBuf == old(structBuf) + Zeros(|structBuf| - |old(structBuf)|)
        decreases Align4(|old(structBuf)|) - |structBuf|
      {
        structBuf := structBuf + [0];
      }
    }

    method StringOffset(name: Name) returns (off: u32)
      requires TableValid()
      modifies this`strings, this`stringsOff
      ensures TableValid() && Grows(old(stringsOff), stringsOff) && old(strings) <= strings
      ensures stringsOff.Keys == old(stringsOff).Keys + {name} && off == stringsOff[name]
      ensures name in old(stringsOff) ==> strings == old(strings)
    {
      if name in stringsOff {
        return stringsOff[name];
      }
      off := Wrap32(|strings|);
      if |strings| < TWO32 { TableExtends(strings, stringsOff, name); }
      strings := strings + name + [0];
      stringsOff := stringsOff[name := off];
    }

    /** Appends `part` at an aligned position and pads to the next one. */
    method WritePadded(part: seq<byte>)
      requires Aligned(|structBuf|)
      modifies this`structBuf
      ensures structBuf == old(structBuf) + Pad(part) && Aligned(|structBuf|)
    {
      structBuf := structBuf + part;
      AlignShift(|old(structBuf)|, |part|);
      PadStruct();
      Assoc(old(structBuf), part, Zeros(Align4(|part|) - |part|));
    }

    method WriteProperty(name: Name, value: seq<byte>)
      requires TableValid() && Aligned(|structBuf|)
      modifies this
      ensures TableValid() && Grows(old(stringsOff), stringsOff) && old(strings) <= strings
      ensures stringsOff.Keys == old(stringsOff).Keys + {name}
      ensures structBuf == old(structBuf) + PropBytes(name, value, stringsOff) && Aligned(|structBuf|)
    {
      WriteToken(PROP);
      structBuf := structBuf + BE32(Wrap32(|value|));
      var off := StringOffset(name);
      structBuf := structBuf + BE32(off);
      ghost var base, head := old(structBuf), PropHead(|value|, off);
      assert structBuf == base + head;
      WritePadded(value);
      Assoc(base, head, Pad(value));
    }

    method EmitProperty(name: Name, prop: Property) returns (ok: bool)
      requires TableValid() && Aligned(|structBuf|)
      modifies this
      ensures ok == (prop.DefinedCount() == 1)
      ensures ok ==> TableValid() && Grows(old(stringsOff), stringsOff) && old(strings) <= strings
      ensures ok ==> stringsOff.Keys == old(stringsOff).Keys + {name}
      ensures ok ==> structBuf == old(structBuf) + PropBytes(name, Encode(prop), stringsOff) && Aligned(|structBuf|)
      ensures ok ==> Carries(Encode(prop), prop)
    {
      if prop.DefinedCount() != 1 {
        return false;
      }
      var data: seq<byte> := [];
      if |prop.strings| > 0 {
        data := EncodeStrings(prop.strings);
      } else if |prop.u32s| > 0 {
        data := EncodeWords(prop.u32s, 4);
      } else if |prop.u64s| > 0 {
        data := EncodeWords(prop.u64s, 8);
      } else if |prop.bytes| > 0 {
        data := prop.bytes;
      }
      WriteProperty(name, data);
      EncodeCarries(prop);
      ok := true;
    }

    method EmitProperties(n: Node) returns (ok: bool)
      requires TableValid() && Aligned(|structBuf|)
      modifies this
      ensures ok <==> forall k :: k in n.props ==> n.props[k].DefinedCount() == 1
      ensures ok ==> TableValid() && Grows(old(stringsOff), stringsOff) && old(strings) <= strings
      ensures ok ==> n.props.Keys <= stringsOff.Keys && structBuf == old(structBuf) + NodeProps(n, stringsOff)
      ensures ok ==> Aligned(|structBuf|)
    {
      var keys := CollectKeys(n.props);
      SortStringsSorts(keys);
      keys := SortStrings(keys);
      SortedMembers(n.props.Keys);
      var i := 0;
      while i < |keys|
        invariant i <= |keys|
        invariant TableValid() && Grows(old(stringsOff), stringsOff) && old(strings) <= strings
        invariant forall k :: k in keys[..i] ==> k in stringsOff && n.props[k].DefinedCount() == 1
        invariant structBuf == old(structBuf) + PropsBytes(keys[..i], n.props, stringsOff)
        invariant Aligned(|structBuf|)
      {
        ghost var before, done := stringsOff, keys[..i];
        var k := keys[i];
        var defined := EmitProperty(k, n.props[k]);
        if !defined {
          return false;
        }
        TakeNext(keys, i);
        PropsStable(done, n.props, before, stringsOff);
        PropsAppend(done, k, n.props, stringsOff);
        Assoc(old(structBuf), PropsBytes(done, n.props, stringsOff), PropBytes(k, Encode(n.props[k]), stringsOff));
        i := i + 1;
      }
      assert keys[..|keys|] == keys;
      ok := true;
    }

    method EmitChildren(cs: seq<Node>) returns (ok: bool)
      requires TableValid() && Aligned(|structBuf|)
      modifies this
      ensures ok <==> forall c :: c in cs ==> Defined(c)
      ensures ok ==> TableValid() && Grows(old(stringsOff), stringsOff) && old(strings) <= strings
      ensures ok ==> NamesOf(cs) <= stringsOff.Keys && structBuf == old(structBuf) + ChildrenBytes(cs, stringsOff)
      ensures ok ==> Aligned(|structBuf|)
      decreases cs
    {
      var i := 0;
      while i < |cs|
        invariant i <= |cs|
        invariant TableValid() && Grows(old(stringsOff), stringsOff) && old(strings) <= strings
        invariant forall c :: c in cs[..i] ==> Defined(c)
        invariant NamesOf(cs[..i]) <= stringsOff.Keys
        invariant structBuf == old(structBuf) + ChildrenBytes(cs[..i], stringsOff)
        invariant Aligned(|structBuf|)
      {
        ghost var before, done := stringsOff, cs[..i];
        var c := cs[i];
        var defined := EmitNode(c);
        if !defined {
          return false;
        }
        TakeNext(cs, i);
        ChildrenStable(done, before, stringsOff);
        NamesAppend(done, c);
        ChildrenAppend(done, c, stringsOff);
        Assoc(old(structBuf), ChildrenBytes(done, stringsOff), NodeBytes(c, stringsOff));
        i := i + 1;
      }
      assert cs[..|cs|] == cs;
      ok := true;
    }

    method BeginNode(name: Name)
      requires Aligned(|structBuf|)
      modifies this`structBuf
      ensures structBuf == old(structBuf) + NodeHead(name) && Aligned(|structBuf|)
    {
      WriteToken(BEGIN_NODE);
      WritePadded(name + [0]);
      Assoc(old(structBuf), BE32(BEGIN_NODE), Pad(name + [0]));
    }

    method EmitNode(n: Node) returns (ok: bool)
      requires TableValid() && Aligned(|structBuf|)
      modifies this
      ensures ok <==> Defined(n)
      ensures ok ==> TableValid() && Grows(old(stringsOff), stringsOff) && old(strings) <= strings
      ensures ok ==> Names(n) <= stringsOff.Keys && structBuf == old(structBuf) + NodeBytes(n, stringsOff)
      ensures ok ==> Aligned(|structBuf|)
      decreases n
    {
      BeginNode(n.name);
      var defined := EmitProperties(n);
      if !defined {
        return false;
      }
      ghost var propsOff := stringsOff;
      defined := EmitChildren(n.children);
      if !defined {
        return false;
      }
      SortedMembers(n.props.Keys);
      PropsStable(Sorted(n.props.Keys), n.props, propsOff, stringsOff);
      WriteToken(END_NODE);
      NodeConcat(old(structBuf), n, stringsOff);
      ok := true;
    }

    method Finish() returns (blob: seq<byte>)
      requires Aligned(|structBuf|)
      modifies this`structBuf
      ensures structBuf == old(structBuf) + BE32(END)
      ensures blob == Blob(structBuf, strings)
    {
      WriteToken(END);
      AlignShift(|structBuf|, 0);
      PadStruct();
      var bytes := Assemble(structBuf, strings);
      blob := bytes[..];
    }
  }

  lemma {:induction false} HeaderWord(s: seq<byte>, fields: seq<u32>, i: nat)
    requires Header(fields) <= s && i < |fields|
    ensures Word(s, 4 * i) == fields[i]
  {
    BE32RoundTrip(fields[i]);
    forall b | 0 <= b < 4 ensures s[4 * i + b] == BE32(fields[i])[b] {
      assert (4 * i + b) / 4 == i && (4 * i + b) % 4 == b;
      assert s[4 * i + b] == Header(fields)[4 * i + b];
    }
    assert s[4 * i..4 * i + 4] == BE32(fields[i]);
  }

  /** What the reader finds in the header. */
  lemma {:induction false} HeaderReads(blob: seq<byte>, structLen: nat, namesLen: nat)
    requires Header(HeaderFields(structLen, namesLen)) <= blob
    requires 56 + structLen + namesLen < TWO32
    ensures Word(blob, 0) == 0xd00dfeed && Word(blob, 4) == 56 + structLen + namesLen
    ensures Word(blob, 8) == 56 && Word(blob, 12) == 56 + structLen && Word(blob, 16) == 40
    ensures Word(blob, 20) == 17 && Word(blob, 24) == 16
    ensures Word(blob, 32) == namesLen && Word(blob, 36) == structLen
  {
    var fields := HeaderFields(structLen, namesLen);
    HeaderWord(blob, fields, 0);
    HeaderWord(blob, fields, 1);
    HeaderWord(blob, fields, 2);
    HeaderWord(blob, fields, 3);
    HeaderWord(blob, fields, 4);
    HeaderWord(blob, fields, 5);
    HeaderWord(blob, fields, 6);
    HeaderWord(blob, fields, 8);
    HeaderWord(blob, fields, 9);
  }

  lemma {:induction false} BlobBlocks(structBlock: seq<byte>, names: seq<byte>)
    ensures var blob := Blob(structBlock, names);
            |blob| == 56 + |structBlock| + |names| && Header(HeaderFields(|structBlock|, |names|)) <= blob &&
            NoReservations(blob, HEADER_SIZE) && blob[56..56 + |structBlock|] == structBlock &&
            blob[56 + |structBlock|..56 + |structBlock| + |names|] == names
  {
    var h := Header(HeaderFields(|structBlock|, |names|));
    var blob := Blob(structBlock, names);
    assert blob == h + (Zeros(16) + structBlock + names);
    assert forall i :: 40 <= i < 56 ==> blob[i] == Zeros(16)[i - 40];
  }

  lemma {:induction false} ReadBlobFromParts(blob: seq<byte>, structBlock: seq<byte>, names: seq<byte>)
    requires |blob| == 56 + |structBlock| + |names|
    requires Word(blob, 0) == MAGIC && Word(blob, 4) == |blob|
    requires Word(blob, 8) == 56 && Word(blob, 12) == 56 + |structBlock| && Word(blob, 16) == HEADER_SIZE
    requires Word(blob, 20) == VERSION && Word(blob, 24) == LAST_COMP_VERSION
    requires Word(blob, 32) == |names| && Word(blob, 36) == |structBlock|
    requires NoReservations(blob, HEADER_SIZE)
    requires blob[56..56 + |structBlock|] == structBlock
    requires blob[56 + |structBlock|..56 + |structBlock| + |names|] == names
    ensures ReadBlob(blob) == ReadStruct(structBlock, names)
  {}

  /** A blob below 4 GiB hands its two blocks to the reader unchanged. */
  lemma {:induction false} BlobReads(structBlock: seq<byte>, names: seq<byte>)
    requires |Blob(structBlock, names)| < TWO32
    ensures ReadBlob(Blob(structBlock, names)) == ReadStruct(structBlock, names)
  {
    BlobBlocks(structBlock, names);
    HeaderReads(Blob(structBlock, names), |structBlock|, |names|);
    ReadBlobFromParts(Blob(structBlock, names), structBlock, names);
  }

  /** A finished blob reads back as the tree that was laid out. */
  lemma {:induction false} LaidOutReads(structBlock: seq<byte>, names: seq<byte>, root: Node, off: Offsets)
    requires Defined(root) && NulFreeNames(root) && |Blob(structBlock, names)| < TWO32
    requires Names(root) <= off.Keys && OffsetsValid(names, off)
    requires structBlock == NodeBytes(root, off) + BE32(END)
    ensures var t := ReadBlob(Blob(structBlock, names)); t == Some(Canon(root)) && Shows(t.value, root)
  {
    BlobBlocks(structBlock, names);
    BlobReads(structBlock, names);
    StructReads(structBlock, names, root, off);
    CanonShows(root);
  }

  /**
    Building fails exactly on a property without exactly one value kind. Otherwise the blob, when
    its names are NUL-free and it is below 4 GiB, reads back as the tree that was given: the same names,
    and for each property a value that carries its strings, numbers or bytes.
   */
  method Build(root: Node) returns (r: Option<seq<byte>>)
    ensures r.Some? <==> Defined(root)
    ensures r.Some? && NulFreeNames(root) && |r.value| < TWO32 ==>
              && ReadBlob(r.value) == Some(Canon(root))
              && Shows(ReadBlob(r.value).value, root)
  {
    var b := new Builder();
    var ok := b.EmitNode(root);
    if !ok {
      return None;
    }
    var blob := b.Finish();
    r := Some(blob);
    if NulFreeNames(root) && |blob| < TWO32 {
      BlobBlocks(b.structBuf, b.strings);
      LaidOutReads(b.structBuf, b.strings, root, b.stringsOff);
    }
  }
}
