/**
  The flattened devicetree writer of internal/fdt, with a reader written from sections
  5.2 to 5.5 of the Devicetree Specification as its specification.
 */
module FdtFormat {
  import opened Bytes
  import opened ByteStrings

  const HEADER_SIZE := 0x28
  const VERSION: u32 := 17
  const LAST_COMP_VERSION: u32 := 16
  const MAGIC: u32 := 0xd00dfeed

  const BEGIN_NODE: u32 := 1
  const END_NODE: u32 := 2
  const PROP: u32 := 3
  const NOP: u32 := 4
  const END: u32 := 9

  datatype Property = Property(strings: seq<Name>, u32s: seq<u32>, u64s: seq<u64>, bytes: seq<byte>, flag: bool) {
    function DefinedCount(): nat {
      (if |strings| > 0 then 1 else 0) + (if |u32s| > 0 then 1 else 0) + (if |u64s| > 0 then 1 else 0) +
      (if |bytes| > 0 then 1 else 0) + (if flag then 1 else 0)
    }
  }

  datatype Node = Node(name: Name, props: map<Name, Property>, children: seq<Node>)

  /** What a reader of the blob sees: properties as raw bytes, in file order. */
  datatype Tree = Tree(name: Name, props: seq<(Name, seq<byte>)>, children: seq<Tree>)

  // ----- property values -----

  function JoinStrings(ss: seq<Name>): seq<byte> {
    if ss == [] then [] else ss[0] + [0] + JoinStrings(ss[1..])
  }

  function JoinWords(ws: seq<nat>, width: nat): seq<byte> {
    if ws == [] then [] else ToBE(ws[0], width) + JoinWords(ws[1..], width)
  }

  /** The value bytes of a property that defines exactly one kind. */
  function Encode(p: Property): seq<byte> {
    if |p.strings| > 0 then JoinStrings(p.strings)
    else if |p.u32s| > 0 then JoinWords(p.u32s, 4)
    else if |p.u64s| > 0 then JoinWords(p.u64s, 8)
    else p.bytes
  }

  function SplitWords(s: seq<byte>, width: nat): seq<nat>
    requires width > 0
  {
    if |s| < width then [] else [FromBE(s[..width])] + SplitWords(s[width..], width)
  }

  function FindNul(s: seq<byte>, at: nat): (end: nat)
    requires at <= |s|
    ensures at <= end <= |s|
    decreases |s| - at
  {
    if at == |s| || s[at] == 0 then at else FindNul(s, at + 1)
  }

  function SplitStrings(s: seq<byte>): seq<Name>
    decreases |s|
  {
    var end := FindNul(s, 0);
    if end == |s| then [] else [s[..end]] + SplitStrings(s[end + 1..])
  }

  predicate NulFree(name: Name) { forall i :: 0 <= i < |name| ==> name[i] != 0 }

  lemma {:induction false} FindNulAt(s: seq<byte>, at: nat, end: nat)
    requires at <= end < |s| && s[end] == 0
    requires forall i :: at <= i < end ==> s[i] != 0
    ensures FindNul(s, at) == end
    decreases end - at
  {
    if at < end { FindNulAt(s, at + 1, end); }
  }

  lemma {:induction false} FirstWord(ws: seq<nat>, width: nat)
    requires ws != []
    ensures var s := JoinWords(ws, width);
            |s| >= width && s[..width] == ToBE(ws[0], width) && s[width..] == JoinWords(ws[1..], width)
  {}

  /** Splitting an encoded value list gives the values back. */
  lemma {:induction false} WordsRoundTrip(ws: seq<nat>, width: nat)
    requires width > 0
    requires forall i :: 0 <= i < |ws| ==> ws[i] < Pow256(width)
    ensures SplitWords(JoinWords(ws, width), width) == ws
  {
    if ws != [] {
      FirstWord(ws, width);
      BigEndianRoundTrip(ws[0], width);
      WordsRoundTrip(ws[1..], width);
    }
  }

  lemma {:induction false} StringsRoundTrip(ss: seq<Name>)
    requires forall i :: 0 <= i < |ss| ==> NulFree(ss[i])
    ensures SplitStrings(JoinStrings(ss)) == ss
  {
    if ss != [] {
      var s := JoinStrings(ss);
      FindNulAt(s, 0, |ss[0]|);
      StringsRoundTrip(ss[1..]);
      assert s[..|ss[0]|] == ss[0] && s[|ss[0]| + 1..] == JoinStrings(ss[1..]);
    }
  }

  // ----- what a property's value says, without the encoder -----

  /** Where string `i` starts, each string before it taking its length and a NUL. */
  function StringStart(ss: seq<Name>, i: nat): nat
    requires i <= |ss|
  {
    if i == 0 then 0 else |ss[0]| + 1 + StringStart(ss[1..], i - 1)
  }

  /** String `i` and its NUL lie at their place in the value. */
  predicate StringAt(value: seq<byte>, ss: seq<Name>, i: nat)
    requires i < |ss|
  {
    var at, len := StringStart(ss, i), |ss[i]|;
    at + len < |value| && value[at..at + len] == ss[i] && value[at + len] == 0
  }

  /** The four bytes at `at`, most significant first. */
  function Cell(s: seq<byte>, at: nat): nat
    requires at + 4 <= |s|
  {
    0x100_0000 * (s[at] as int) + 0x1_0000 * (s[at + 1] as int) + 256 * (s[at + 2] as int) + (s[at + 3] as int)
  }

  /** Number `i` in its four bytes. */
  predicate CellAt(value: seq<byte>, ws: seq<nat>, i: nat)
    requires i < |ws|
  {
    4 * i + 4 <= |value| && ws[i] == Cell(value, 4 * i)
  }

  /** ... in its eight bytes. */
  predicate LongCellAt(value: seq<byte>, ws: seq<nat>, i: nat)
    requires i < |ws|
  {
    8 * i + 8 <= |value| && ws[i] == TWO32 * Cell(value, 8 * i) + Cell(value, 8 * i + 4)
  }

  /** The value holds the property's data: strings with their NULs, four or eight bytes a number, or raw bytes. */
  ghost predicate Carries(value: seq<byte>, p: Property) {
    && (|p.strings| > 0 ==>
          && |value| == StringStart(p.strings, |p.strings|)
          && forall i :: 0 <= i < |p.strings| ==> StringAt(value, p.strings, i))
    && (|p.strings| > 0 && (forall i :: 0 <= i < |p.strings| ==> NulFree(p.strings[i])) ==>
          SplitStrings(value) == p.strings)
    && (|p.u32s| > 0 ==>
          && |value| == 4 * |p.u32s| && SplitWords(value, 4) == p.u32s
          && forall i :: 0 <= i < |p.u32s| ==> CellAt(value, p.u32s, i))
    && (|p.u64s| > 0 ==>
          && |value| == 8 * |p.u64s| && SplitWords(value, 8) == p.u64s
          && forall i :: 0 <= i < |p.u64s| ==> LongCellAt(value, p.u64s, i))
    && (|p.bytes| > 0 ==> value == p.bytes)
    && (p.flag ==> value == [])
  }

  lemma {:induction false} JoinedStrings(ss: seq<Name>)
    ensures |JoinStrings(ss)| == StringStart(ss, |ss|)
  {
    if ss != [] { JoinedStrings(ss[1..]); }
  }

  lemma {:induction false} JoinedStringAt(ss: seq<Name>, i: nat)
    requires i < |ss|
    ensures StringAt(JoinStrings(ss), ss, i)
  {
    var s, n := JoinStrings(ss), |ss[0]| + 1;
    if i == 0 {
      assert s[0..|ss[0]|] == ss[0];
    } else {
      JoinedStringAt(ss[1..], i - 1);
      var at, len := StringStart(ss, i), |ss[i]|;
      assert s[n..] == JoinStrings(ss[1..]);
      assert s[at..at + len] == s[n..][at - n..at - n + len];
    }
  }

  function WordStart(width: nat, i: nat): nat { if i == 0 then 0 else width + WordStart(width, i - 1) }

  lemma {:induction false} WordStartIsProduct(i: nat)
    ensures WordStart(4, i) == 4 * i && WordStart(8, i) == 8 * i
  {
    if i > 0 { WordStartIsProduct(i - 1); }
  }

  lemma {:induction false} JoinedWords(ws: seq<nat>, width: nat)
    ensures |JoinWords(ws, width)| == WordStart(width, |ws|)
  {
    if ws != [] { JoinedWords(ws[1..], width); }
  }

  lemma {:induction false} SliceOfTail(s: seq<byte>, n: nat, at: nat, len: nat)
    requires n <= at && at + len <= |s|
    ensures s[n..][at - n..at - n + len] == s[at..at + len]
  {}

  /** Word `i` lies at its place. */
  lemma {:induction false} JoinedWordAt(s: seq<byte>, ws: seq<nat>, width: nat, i: nat, at: nat)
    requires s == JoinWords(ws, width) && i < |ws| && at == WordStart(width, i)
    ensures at + width <= |s| && s[at..at + width] == ToBE(ws[i], width)
  {
    FirstWord(ws, width);
    if i > 0 {
      JoinedWordAt(s[width..], ws[1..], width, i - 1, at - width);
      SliceOfTail(s, width, at, width);
    }
  }

  lemma {:induction false} FromBESplit(s: seq<byte>)
    requires |s| >= 4
    ensures FromBE(s) == TWO32 * FromBE(s[..|s| - 4]) + Cell(s, |s| - 4)
  {
    var n := |s|;
    assert s[..n - 1][..n - 2] == s[..n - 2] && s[..n - 2][..n - 3] == s[..n - 3] && s[..n - 3][..n - 4] == s[..n - 4];
    assert FromBE(s[..n - 1]) == 256 * FromBE(s[..n - 2]) + s[n - 2];
    assert FromBE(s[..n - 2]) == 256 * FromBE(s[..n - 3]) + s[n - 3];
    assert FromBE(s[..n - 3]) == 256 * FromBE(s[..n - 4]) + s[n - 4];
  }

  lemma {:induction false} CarriesStrings(p: Property)
    requires |p.strings| > 0 && p.DefinedCount() == 1
    ensures Carries(JoinStrings(p.strings), p)
  {
    var ss := p.strings;
    JoinedStrings(ss);
    forall i | 0 <= i < |ss| ensures StringAt(JoinStrings(ss), ss, i) { JoinedStringAt(ss, i); }
    if forall i :: 0 <= i < |ss| ==> NulFree(ss[i]) { StringsRoundTrip(ss); }
  }

  lemma {:induction false} JoinedCellAt(ws: seq<nat>, i: nat)
    requires i < |ws| && ws[i] < TWO32
    ensures CellAt(JoinWords(ws, 4), ws, i)
  {
    WordRanges();
    WordStartIsProduct(i);
    JoinedWordAt(JoinWords(ws, 4), ws, 4, i, 4 * i);
    BigEndianRoundTrip(ws[i], 4);
    FromBESplit(JoinWords(ws, 4)[4 * i..4 * i + 4]);
  }

  lemma {:induction false} JoinedLongCellAt(ws: seq<nat>, i: nat)
    requires i < |ws| && ws[i] < TWO64
    ensures LongCellAt(JoinWords(ws, 8), ws, i)
  {
    WordRanges();
    WordStartIsProduct(i);
    JoinedWordAt(JoinWords(ws, 8), ws, 8, i, 8 * i);
    BigEndianRoundTrip(ws[i], 8);
    var s := JoinWords(ws, 8)[8 * i..8 * i + 8];
    FromBESplit(s);
    FromBESplit(s[..4]);
  }

  lemma {:induction false} CarriesU32s(p: Property)
    requires |p.u32s| > 0 && p.DefinedCount() == 1
    ensures Carries(JoinWords(p.u32s, 4), p)
  {
    var ws, s := p.u32s, JoinWords(p.u32s, 4);
    WordRanges();
    JoinedWords(ws, 4);
    WordStartIsProduct(|ws|);
    WordsRoundTrip(ws, 4);
    forall i | 0 <= i < |ws| ensures CellAt(s, ws, i) { JoinedCellAt(ws, i); }
  }

  lemma {:induction false} CarriesU64s(p: Property)
    requires |p.u64s| > 0 && p.DefinedCount() == 1
    ensures Carries(JoinWords(p.u64s, 8), p)
  {
    var ws, s := p.u64s, JoinWords(p.u64s, 8);
    WordRanges();
    JoinedWords(ws, 8);
    WordStartIsProduct(|ws|);
    WordsRoundTrip(ws, 8);
    forall i | 0 <= i < |ws| ensures LongCellAt(s, ws, i) { JoinedLongCellAt(ws, i); }
  }

  /** Every kind of property is encoded so that its value can be told from the bytes. */
  lemma {:induction false} EncodeCarries(p: Property)
    requires p.DefinedCount() == 1
    ensures Carries(Encode(p), p)
  {
    if |p.strings| > 0 {
      CarriesStrings(p);
    } else if |p.u32s| > 0 {
      CarriesU32s(p);
    } else if |p.u64s| > 0 {
      CarriesU64s(p);
    }
  }
}

/** The reader: the devicetree blob format as sections 5.2 to 5.5 of the specification give it. */
module FdtReader {
  import opened Bytes
  import opened ByteStrings
  import opened Common
  import opened FdtFormat

  /** A parse result and the offset just after it. */
  datatype Parse<+T> = Fail | Got(value: T, next: nat)

  /** The next 4-byte boundary at or after `at`. */
  function Align4(at: nat): (r: nat)
    ensures at <= r < at + 4
  {
    (at + 3) / 4 * 4
  }

  function ReadCString(s: seq<byte>, at: nat): (r: Parse<Name>)
    ensures r.Got? ==> at < r.next <= |s|
  {
    if at > |s| then Fail
    else
      var end := FindNul(s, at);
      if end == |s| then Fail else Got(s[at..end], end + 1)
  }

  function Word(s: seq<byte>, at: nat): nat
    requires at + 4 <= |s|
  {
    FromBE32(s[at], s[at + 1], s[at + 2], s[at + 3])
  }

  /** The token at `at`, after any FDT_NOP tokens, with the offset behind it. */
  function ReadToken(s: seq<byte>, at: nat): (r: Parse<nat>)
    ensures r.Got? ==> at < r.next <= |s|
    decreases |s| - at
  {
    if at + 4 > |s| then Fail
    else if Word(s, at) == NOP then ReadToken(s, at + 4)
    else Got(Word(s, at), at + 4)
  }

  /** One FDT_PROP body: length, name offset, value, padding. */
  function ReadProp(s: seq<byte>, names: seq<byte>, at: nat): (r: Parse<(Name, seq<byte>)>)
    ensures r.Got? ==> at < r.next
  {
    if at + 8 > |s| then Fail
    else
      var len, off := Word(s, at), Word(s, at + 4);
      var name := ReadCString(names, off);
      if name.Fail? || at + 8 + len > |s| then Fail
      else Got((name.value, s[at + 8..at + 8 + len]), Align4(at + 8 + len))
  }

  /** The properties that open a node's body. */
  function ReadProps(s: seq<byte>, names: seq<byte>, at: nat): (r: Parse<seq<(Name, seq<byte>)>>)
    ensures r.Got? ==> at <= r.next
    decreases |s| - at
  {
    var t := ReadToken(s, at);
    if t.Fail? then Fail
    else if t.value != PROP then Got([], at)
    else
      var p := ReadProp(s, names, t.next);
      if p.Fail? then Fail
      else
        var rest := ReadProps(s, names, p.next);
        if rest.Fail? then Fail else Got([p.value] + rest.value, rest.next)
  }

  function ReadNode(s: seq<byte>, names: seq<byte>, at: nat): (r: Parse<Tree>)
    ensures r.Got? ==> at < r.next
    decreases |s| - at, 0
  {
    var t := ReadToken(s, at);
    if t.Fail? || t.value != BEGIN_NODE then Fail
    else
      var name := ReadCString(s, t.next);
      if name.Fail? then Fail
      else
        var props := ReadProps(s, names, Align4(name.next));
        if props.Fail? then Fail
        else
          var kids := ReadChildren(s, names, props.next);
          if kids.Fail? then Fail
          else
            var e := ReadToken(s, kids.next);
            if e.Fail? || e.value != END_NODE then Fail
            else Got(Tree(name.value, props.value, kids.value), e.next)
  }

  function ReadChildren(s: seq<byte>, names: seq<byte>, at: nat): (r: Parse<seq<Tree>>)
    ensures r.Got? ==> at <= r.next
    decreases |s| - at, 1
  {
    var t := ReadToken(s, at);
    if t.Fail? then Fail
    else if t.value != BEGIN_NODE then Got([], at)
    else
      var kid := ReadNode(s, names, at);
      if kid.Fail? then Fail
      else
        var rest := ReadChildren(s, names, kid.next);
        if rest.Fail? then Fail else Got([kid.value] + rest.value, rest.next)
  }

  /** A structure block: one root node, then FDT_END as its last word. */
  function ReadStruct(s: seq<byte>, names: seq<byte>): Option<Tree> {
    var root := ReadNode(s, names, 0);
    if root.Fail? then None
    else
      var e := ReadToken(s, root.next);
      if e.Got? && e.value == END && e.next == |s| then Some(root.value) else None
  }

  /** The memory reservation block at `at` is empty: its first entry is the all-zero terminator. */
  predicate NoReservations(blob: seq<byte>, at: nat) {
    at % 8 == 0 && at + 16 <= |blob| && forall i :: at <= i < at + 16 ==> blob[i] == 0
  }

  /** A whole blob: header checks of section 5.2, then the three blocks it points at. */
  function ReadBlob(blob: seq<byte>): Option<Tree> {
    if |blob| < HEADER_SIZE || Word(blob, 0) != MAGIC || Word(blob, 4) != |blob| then None
    else if Word(blob, 20) < VERSION || Word(blob, 24) > VERSION then None
    else
      var structAt, namesAt := Word(blob, 8), Word(blob, 12);
      var namesLen, structLen := Word(blob, 32), Word(blob, 36);
      if structAt % 4 != 0 || structAt + structLen > |blob| || namesAt + namesLen > |blob| then None
      else if !NoReservations(blob, Word(blob, 16)) then None
      else ReadStruct(blob[structAt..structAt + structLen], blob[namesAt..namesAt + namesLen])
  }
}

/** What the writer lays out, and that the reader undoes it. */
module FdtLayout {
  import opened Bytes
  import opened ByteStrings
  import opened Common
  import opened FdtFormat
  import opened FdtReader

  /** Every property of the tree defines exactly one value kind. */
  ghost predicate Defined(n: Node) {
    (forall k :: k in n.props ==> n.props[k].DefinedCount() == 1) &&
    (forall c :: c in n.children ==> Defined(c))
  }

  ghost predicate NulFreeNames(n: Node) {
    NulFree(n.name) && (forall k :: k in n.props ==> NulFree(k)) &&
    (forall c :: c in n.children ==> NulFreeNames(c))
  }

  ghost function Names(n: Node): set<Name> { n.props.Keys + NamesOf(n.children) }

  ghost function NamesOf(cs: seq<Node>): set<Name> {
    if cs == [] then {} else Names(cs[0]) + NamesOf(cs[1..])
  }

  // ----- the tree a reader should see -----

  function CanonProps(keys: seq<Name>, props: map<Name, Property>): seq<(Name, seq<byte>)>
    requires forall k :: k in keys ==> k in props
  {
    if keys == [] then [] else [(keys[0], Encode(props[keys[0]]))] + CanonProps(keys[1..], props)
  }

  ghost function Canon(n: Node): Tree {
    SortedMembers(n.props.Keys);
    Tree(n.name, CanonProps(Sorted(n.props.Keys), n.props), CanonAll(n.children))
  }

  ghost function CanonAll(cs: seq<Node>): seq<Tree> {
    if cs == [] then [] else [Canon(cs[0])] + CanonAll(cs[1..])
  }

  /** What was read is the given node: its name, its properties in ascending order of their names, its children. */
  ghost predicate Shows(t: Tree, n: Node)
    decreases n
  {
    && t.name == n.name && Ascending(Firsts(t.props)) && Elements(Firsts(t.props)) == n.props.Keys
    && (forall e :: e in t.props ==> e.0 in n.props && Carries(e.1, n.props[e.0]))
    && |t.children| == |n.children|
    && forall i :: 0 <= i < |n.children| ==> Shows(t.children[i], n.children[i])
  }

  lemma {:induction false} CanonPropsAt(keys: seq<Name>, props: map<Name, Property>, i: nat)
    requires i < |keys| && forall k :: k in keys ==> k in props
    ensures |CanonProps(keys, props)| == |keys| && CanonProps(keys, props)[i] == (keys[i], Encode(props[keys[i]]))
  {
    if |keys| > 1 { CanonPropsAt(keys[1..], props, if i == 0 then 0 else i - 1); }
  }

  lemma {:induction false} CanonPropsShow(keys: seq<Name>, props: map<Name, Property>)
    requires forall k :: k in keys ==> k in props
    requires forall k :: k in props ==> props[k].DefinedCount() == 1
    ensures Firsts(CanonProps(keys, props)) == keys
    ensures forall e :: e in CanonProps(keys, props) ==> e.0 in props && Carries(e.1, props[e.0])
  {
    var es := CanonProps(keys, props);
    forall i | 0 <= i < |keys|
      ensures |es| == |keys| && es[i].0 == keys[i] && Carries(es[i].1, props[keys[i]])
    {
      CanonPropsAt(keys, props, i);
      EncodeCarries(props[keys[i]]);
    }
  }

  lemma {:induction false} CanonAllAt(cs: seq<Node>, i: nat)
    requires i < |cs|
    ensures |CanonAll(cs)| == |cs| && CanonAll(cs)[i] == Canon(cs[i])
  {
    if |cs| > 1 { CanonAllAt(cs[1..], if i == 0 then 0 else i - 1); }
  }

  /** The tree a reader should see is the given one, value by value. */
  lemma {:induction false} CanonShows(n: Node)
    requires Defined(n)
    ensures Shows(Canon(n), n)
    decreases n
  {
    SortedMembers(n.props.Keys);
    CanonPropsShow(Sorted(n.props.Keys), n.props);
    forall i | 0 <= i < |n.children|
      ensures |Canon(n).children| == |n.children| && Shows(Canon(n).children[i], n.children[i])
    {
      CanonAllAt(n.children, i);
      CanonShows(n.children[i]);
    }
  }

  // ----- the structure block for given string offsets -----

  function Pad(s: seq<byte>): (r: seq<byte>)
    ensures s <= r && |r| == Align4(|s|)
  {
    s + Zeros(Align4(|s|) - |s|)
  }

  type Offsets = map<Name, u32>

  function PropHead(len: nat, off: u32): (r: seq<byte>)
    ensures |r| == 12
  {
    BE32(PROP) + BE32(Wrap32(len)) + BE32(off)
  }

  function PropBytes(k: Name, value: seq<byte>, off: Offsets): (r: seq<byte>)
    requires k in off
    ensures |r| == 12 + Align4(|value|)
  {
    PropHead(|value|, off[k]) + Pad(value)
  }

  function PropsBytes(keys: seq<Name>, props: map<Name, Property>, off: Offsets): (r: seq<byte>)
    requires forall k :: k in keys ==> k in props && k in off
  {
    if keys == [] then [] else PropBytes(keys[0], Encode(props[keys[0]]), off) + PropsBytes(keys[1..], props, off)
  }

  function NodeHead(name: Name): (r: seq<byte>)
    ensures |r| == 4 + Align4(|name| + 1)
  {
    BE32(BEGIN_NODE) + Pad(name + [0])
  }

  ghost function NodeProps(n: Node, off: Offsets): (r: seq<byte>)
    requires n.props.Keys <= off.Keys
  {
    SortedMembers(n.props.Keys);
    PropsBytes(Sorted(n.props.Keys), n.props, off)
  }

  ghost function NodeBytes(n: Node, off: Offsets): (r: seq<byte>)
    requires Names(n) <= off.Keys
  {
    NodeHead(n.name) + (NodeProps(n, off) + (ChildrenBytes(n.children, off) + BE32(END_NODE)))
  }

  ghost function ChildrenBytes(cs: seq<Node>, off: Offsets): (r: seq<byte>)
    requires NamesOf(cs) <= off.Keys
  {
    if cs == [] then [] else NodeBytes(cs[0], off) + ChildrenBytes(cs[1..], off)
  }

  /** `part` sits in `s` at offset `at`. */
  ghost predicate Holds(s: seq<byte>, at: nat, part: seq<byte>) {
    at + |part| <= |s| && forall i {:trigger part[i]} :: 0 <= i < |part| ==> s[at + i] == part[i]
  }

  /** Offset `off[k]` points at the NUL-terminated `k` in the strings block. */
  ghost predicate OffsetsValid(names: seq<byte>, off: Offsets) {
    forall k {:trigger Holds(names, off[k], k + [0])} :: k in off ==> Holds(names, off[k], k + [0])
  }

  // ----- reading back what was laid out -----

  lemma {:induction false} HoldsSlice(s: seq<byte>, at: nat, part: seq<byte>)
    requires Holds(s, at, part)
    ensures s[at..at + |part|] == part
  {}

  lemma {:induction false} HoldsSplit(s: seq<byte>, at: nat, a: seq<byte>, b: seq<byte>, mid: nat)
    requires Holds(s, at, a + b) && mid == at + |a|
    ensures Holds(s, at, a) && Holds(s, mid, b)
  {
    forall i | 0 <= i < |a| ensures s[at + i] == a[i] { assert (a + b)[i] == a[i]; }
    forall i | 0 <= i < |b| ensures s[mid + i] == b[i] { assert (a + b)[|a| + i] == b[i]; }
  }

  lemma {:induction false} TokenReads(s: seq<byte>, at: nat, t: u32)
    requires Holds(s, at, BE32(t)) && t != NOP
    ensures at + 4 <= |s| && Word(s, at) == t && ReadToken(s, at) == Got(t, at + 4)
  {
    BE32RoundTrip(t);
    HoldsSlice(s, at, BE32(t));
  }

  lemma {:induction false} CStringReads(s: seq<byte>, at: nat, name: Name)
    requires Holds(s, at, name + [0]) && NulFree(name)
    ensures ReadCString(s, at) == Got(name, at + |name| + 1)
  {
    HoldsSplit(s, at, name, [0], at + |name|);
    HoldsSlice(s, at, name);
    assert s[at + |name|] == [0 as byte][0];
    forall i | at <= i < at + |name| ensures s[i] != 0 { assert s[at + (i - at)] == name[i - at]; }
    FindNulAt(s, at, at + |name|);
  }

  /** A multiple of 4, by counting down. */
  ghost predicate Aligned(at: nat) { at == 0 || (at >= 4 && Aligned(at - 4)) }

  lemma {:induction false} AlignedIsMultipleOf4(at: nat)
    ensures Aligned(at) <==> at % 4 == 0
  {
    if at >= 4 { AlignedIsMultipleOf4(at - 4); }
  }

  lemma {:induction false} AlignShift(at: nat, n: nat)
    requires Aligned(at)
    ensures Align4(at + n) == at + Align4(n) && Aligned(at + Align4(n))
  {
    AlignedIsMultipleOf4(at);
    AlignedIsMultipleOf4(at + Align4(n));
  }

  lemma {:induction false} PropHeadHolds(s: seq<byte>, at: nat, len: nat, off: u32)
    requires Holds(s, at, PropHead(len, off))
    ensures Holds(s, at, BE32(PROP)) && Holds(s, at + 4, BE32(Wrap32(len))) && Holds(s, at + 8, BE32(off))
  {
    HoldsSplit(s, at, BE32(PROP) + BE32(Wrap32(len)), BE32(off), at + 8);
    HoldsSplit(s, at, BE32(PROP), BE32(Wrap32(len)), at + 4);
  }

  lemma {:induction false} PropHeadReads(s: seq<byte>, at: nat, len: nat, off: u32)
    requires Holds(s, at, PropHead(len, off)) && len < TWO32
    ensures ReadToken(s, at) == Got(PROP, at + 4)
    ensures Word(s, at + 4) == len && Word(s, at + 8) == off
  {
    PropHeadHolds(s, at, len, off);
    TokenReads(s, at, PROP);
    BE32RoundTrip(Wrap32(len));
    HoldsSlice(s, at + 4, BE32(Wrap32(len)));
    BE32RoundTrip(off);
    HoldsSlice(s, at + 8, BE32(off));
  }

  lemma {:induction false} NextProp(at: nat, value: seq<byte>)
    requires Aligned(at)
    ensures var end := at + 12 + Align4(|value|); Align4(at + 12 + |value|) == end && Aligned(end)
  {
    assert Aligned(at + 4) && Aligned(at + 8) && Aligned(at + 12);
    AlignShift(at + 12, |value|);
  }

  lemma {:induction false} PropReads(s: seq<byte>, names: seq<byte>, at: nat, k: Name, value: seq<byte>, off: Offsets,
                                     end: nat)
    requires k in off && NulFree(k) && OffsetsValid(names, off)
    requires |s| < TWO32 && Aligned(at)
    requires Holds(s, at, PropBytes(k, value, off)) && end == at + |PropBytes(k, value, off)|
    ensures ReadToken(s, at) == Got(PROP, at + 4)
    ensures ReadProp(s, names, at + 4) == Got((k, value), end) && Aligned(end)
  {
    HoldsSplit(s, at, PropHead(|value|, off[k]), Pad(value), at + 12);
    HoldsSplit(s, at + 12, value, Zeros(Align4(|value|) - |value|), at + 12 + |value|);
    PropHeadReads(s, at, |value|, off[k]);
    HoldsSlice(s, at + 12, value);
    CStringReads(names, off[k], k);
    NextProp(at, value);
  }

  lemma {:induction false} ReadPropsFromParts(s: seq<byte>, names: seq<byte>, at: nat, p: (Name, seq<byte>), mid: nat,
                                              rest: seq<(Name, seq<byte>)>, end: nat)
    requires ReadToken(s, at) == Got(PROP, at + 4) && ReadProp(s, names, at + 4) == Got(p, mid)
    requires ReadProps(s, names, mid) == Got(rest, end)
    ensures ReadProps(s, names, at) == Got([p] + rest, end)
  {}

  lemma {:induction false} PropsRead(s: seq<byte>, names: seq<byte>, at: nat, keys: seq<Name>,
                                     props: map<Name, Property>, off: Offsets, end: nat)
    requires forall k :: k in keys ==> k in props && k in off && NulFree(k)
    requires OffsetsValid(names, off) && |s| < TWO32 && Aligned(at)
    requires Holds(s, at, PropsBytes(keys, props, off)) && end == at + |PropsBytes(keys, props, off)|
    requires var t := ReadToken(s, end); t.Got? && t.value != PROP
    ensures ReadProps(s, names, at) == Got(CanonProps(keys, props), end) && Aligned(end)
    decreases |keys|
  {
    if keys != [] {
      var value := Encode(props[keys[0]]);
      var p, rest := PropBytes(keys[0], value, off), PropsBytes(keys[1..], props, off);
      var mid := at + |p|;
      assert PropsBytes(keys, props, off) == p + rest;
      HoldsSplit(s, at, p, rest, mid);
      PropReads(s, names, at, keys[0], value, off, mid);
      PropsRead(s, names, mid, keys[1..], props, off, end);
      ReadPropsFromParts(s, names, at, (keys[0], value), mid, CanonProps(keys[1..], props), end);
    }
  }

  lemma {:induction false} HeadReads(s: seq<byte>, at: nat, name: Name, end: nat)
    requires Holds(s, at, NodeHead(name)) && NulFree(name) && Aligned(at)
    requires end == at + |NodeHead(name)|
    ensures ReadToken(s, at) == Got(BEGIN_NODE, at + 4)
    ensures var r := ReadCString(s, at + 4); r.Got? && r.value == name && Align4(r.next) == end
    ensures Aligned(end)
  {
    HoldsSplit(s, at, BE32(BEGIN_NODE), Pad(name + [0]), at + 4);
    HoldsSplit(s, at + 4, name + [0], Zeros(Align4(|name| + 1) - (|name| + 1)), at + 5 + |name|);
    TokenReads(s, at, BEGIN_NODE);
    CStringReads(s, at + 4, name);
    AlignShift(at + 4, |name| + 1);
  }

  /** The parts of a node, found in place. */
  lemma {:induction false} NodeHolds(s: seq<byte>, at: nat, n: Node, off: Offsets, body: nat, kids: nat)
    requires Names(n) <= off.Keys && Holds(s, at, NodeBytes(n, off))
    requires body == at + |NodeHead(n.name)| && kids == body + |NodeProps(n, off)|
    ensures Holds(s, at, NodeHead(n.name)) && Holds(s, body, NodeProps(n, off))
    ensures Holds(s, kids, ChildrenBytes(n.children, off) + BE32(END_NODE))
    ensures at + |NodeBytes(n, off)| == kids + |ChildrenBytes(n.children, off)| + 4
  {
    var c := ChildrenBytes(n.children, off) + BE32(END_NODE);
    HoldsSplit(s, at, NodeHead(n.name), NodeProps(n, off) + c, body);
    HoldsSplit(s, body, NodeProps(n, off), c, kids);
  }

  lemma {:induction false} ChildrenHold(s: seq<byte>, at: nat, cs: seq<Node>, off: Offsets, mid: nat)
    requires cs != [] && NamesOf(cs) <= off.Keys
    requires Holds(s, at, ChildrenBytes(cs, off) + BE32(END_NODE)) && mid == at + |NodeBytes(cs[0], off)|
    ensures Holds(s, at, NodeBytes(cs[0], off))
    ensures Holds(s, mid, ChildrenBytes(cs[1..], off) + BE32(END_NODE))
  {
    var first, rest := NodeBytes(cs[0], off), ChildrenBytes(cs[1..], off) + BE32(END_NODE);
    assert ChildrenBytes(cs, off) + BE32(END_NODE) == first + rest;
    HoldsSplit(s, at, first, rest, mid);
  }

  /** What follows the properties of a node is a child or the end of the node. */
  lemma {:induction false} BodyToken(s: seq<byte>, at: nat, cs: seq<Node>, off: Offsets)
    requires NamesOf(cs) <= off.Keys && Holds(s, at, ChildrenBytes(cs, off) + BE32(END_NODE))
    ensures ReadToken(s, at) == Got(if cs == [] then END_NODE else BEGIN_NODE, at + 4)
  {
    HoldsSplit(s, at, ChildrenBytes(cs, off), BE32(END_NODE), at + |ChildrenBytes(cs, off)|);
    if cs == [] {
      TokenReads(s, at, END_NODE);
    } else {
      var c := cs[0];
      ChildrenHold(s, at, cs, off, at + |NodeBytes(c, off)|);
      NodeHolds(s, at, c, off, at + |NodeHead(c.name)|, at + |NodeHead(c.name)| + |NodeProps(c, off)|);
      HoldsSplit(s, at, BE32(BEGIN_NODE), Pad(c.name + [0]), at + 4);
      TokenReads(s, at, BEGIN_NODE);
    }
  }

  lemma {:induction false} NodePropsRead(s: seq<byte>, names: seq<byte>, at: nat, n: Node, off: Offsets, end: nat)
    requires Names(n) <= off.Keys && NulFreeNames(n)
    requires OffsetsValid(names, off) && |s| < TWO32 && Aligned(at)
    requires Holds(s, at, NodeProps(n, off)) && end == at + |NodeProps(n, off)|
    requires var t := ReadToken(s, end); t.Got? && t.value != PROP
    ensures ReadProps(s, names, at) == Got(Canon(n).props, end) && Aligned(end)
  {
    SortedMembers(n.props.Keys);
    PropsRead(s, names, at, Sorted(n.props.Keys), n.props, off, end);
  }

  lemma {:induction false} ReadNodeFromParts(s: seq<byte>, names: seq<byte>, at: nat, t: Tree, body: nat, kids: nat,
                                             end: nat)
    requires ReadToken(s, at) == Got(BEGIN_NODE, at + 4)
    requires var r := ReadCString(s, at + 4); r.Got? && r.value == t.name && Align4(r.next) == body
    requires ReadProps(s, names, body) == Got(t.props, kids)
    requires end >= 4 && ReadChildren(s, names, kids) == Got(t.children, end - 4)
    requires ReadToken(s, end - 4) == Got(END_NODE, end)
    ensures ReadNode(s, names, at) == Got(t, end)
  {}

  /** A laid-out node reads back as its canonical tree, ending where the layout ends. */
  lemma {:induction false} NodeReads(s: seq<byte>, names: seq<byte>, at: nat, n: Node, off: Offsets, end: nat)
    requires Names(n) <= off.Keys && NulFreeNames(n)
    requires OffsetsValid(names, off) && |s| < TWO32 && Aligned(at)
    requires Holds(s, at, NodeBytes(n, off)) && end == at + |NodeBytes(n, off)|
    ensures ReadNode(s, names, at) == Got(Canon(n), end) && Aligned(end)
    decreases n, 1
  {
    var body := at + |NodeHead(n.name)|;
    var kids := body + |NodeProps(n, off)|;
    NodeHolds(s, at, n, off, body, kids);
    HeadReads(s, at, n.name, body);
    BodyToken(s, kids, n.children, off);
    NodePropsRead(s, names, body, n, off, kids);
    ChildrenRead(s, names, kids, n.children, off, end);
    ReadNodeFromParts(s, names, at, Canon(n), body, kids, end);
  }

  lemma {:induction false} ChildrenRead(s: seq<byte>, names: seq<byte>, at: nat, cs: seq<Node>, off: Offsets, end: nat)
    requires NamesOf(cs) <= off.Keys && forall c :: c in cs ==> NulFreeNames(c)
    requires OffsetsValid(names, off) && |s| < TWO32 && Aligned(at)
    requires Holds(s, at, ChildrenBytes(cs, off) + BE32(END_NODE)) && end == at + |ChildrenBytes(cs, off)| + 4
    ensures ReadChildren(s, names, at) == Got(CanonAll(cs), end - 4)
    ensures ReadToken(s, end - 4) == Got(END_NODE, end) && Aligned(end)
    decreases cs
  {
    BodyToken(s, at, cs, off);
    if cs != [] {
      var mid := at + |NodeBytes(cs[0], off)|;
      ChildrenHold(s, at, cs, off, mid);
      NodeReads(s, names, at, cs[0], off, mid);
      ChildrenRead(s, names, mid, cs[1..], off, end);
    }
  }

  /** The structure block the writer produces reads back as the canonical tree. */
  lemma {:induction false} StructReads(s: seq<byte>, names: seq<byte>, n: Node, off: Offsets)
    requires Names(n) <= off.Keys && NulFreeNames(n)
    requires OffsetsValid(names, off) && |s| < TWO32
    requires s == NodeBytes(n, off) + BE32(END)
    ensures ReadStruct(s, names) == Some(Canon(n))
  {
    var end := |NodeBytes(n, off)|;
    HoldsSplit(s, 0, NodeBytes(n, off), BE32(END), end);
    NodeReads(s, names, 0, n, off, end);
    TokenReads(s, end, END);
  }
}
