/**
  Where each node of the index comes from, said of the tar entries by their positions. The actions that the
  merge is proved against are not part of it.
 */
module OciOrigin {
  import opened Bytes
  import opened ByteStrings
  import opened Common
  import opened OciActions
  import opened OciSpec
  import opened Paths

  // ----- what the tar entries say, without the actions -----

  /** A tar entry of an image, with the number and the blob of its layer. */
  datatype Item = Item(layer: nat, tarRef: Name, entry: TarEntry)

  function Items(l: Layer, k: nat): (r: seq<Item>)
    ensures |r| == |l.entries|
  {
    seq(|l.entries|, j requires 0 <= j < |l.entries| => Item(k, l.tarRef, l.entries[j]))
  }

  /** All entries of an image, layer after layer. */
  function AllItems(layers: seq<Layer>): seq<Item> {
    if layers == [] then [] else AllItems(layers[..|layers| - 1]) + Items(layers[|layers| - 1], |layers| - 1)
  }

  /** The path is that of a whiteout or an opaque marker. */
  predicate Marks(p: Path) { p != [] && [46, 119, 104, 46] <= p[|p| - 1] }

  /** The entry puts a node at `p`. */
  predicate Writes(e: TarEntry, p: Path) { e.name == Named(p) && !Marks(p) && !e.typ.TypeGlobalHeader? }

  /** The name behind a whiteout's prefix, joined to the directory as path.Join does. */
  function Whited(dir: Path, name: Name): Path {
    if name == [] || name == [46] || (name == [46, 46] && dir == []) then dir
    else if name == [46, 46] then dir[..|dir| - 1]
    else dir + [name]
  }

  /** The entry is a whiteout or a marker that takes `p` away. */
  predicate Deletes(e: TarEntry, p: Path) {
    && e.name.Named? && Marks(e.name.path)
    && var dir, base := e.name.path[..|e.name.path| - 1], e.name.path[|e.name.path| - 1];
       if base == [46, 119, 104, 46, 46, 119, 104, 46, 46, 111, 112, 113] then dir != [] && dir < p
       else var t := Whited(dir, base[4..]); p == t || (t != [] && t < p)
  }

  /** Of the first `n` entries, `i` is the last that writes `p`, and none after it takes `p` away. */
  ghost predicate LastWriter(items: seq<Item>, n: nat, p: Path, i: nat) {
    && i < n <= |items| && Writes(items[i].entry, p)
    && forall j {:trigger items[j]} :: i < j < n ==> !Writes(items[j].entry, p) && !Deletes(items[j].entry, p)
  }

  /** Entry `s` is the last one before `i` in its layer that writes `p`, taken away since or not. */
  ghost predicate InLayer(items: seq<Item>, i: nat, p: Path, s: nat) {
    && s < i < |items| && items[s].layer == items[i].layer && Writes(items[s].entry, p)
    && forall j {:trigger items[j]} :: s < j < i ==> !Writes(items[j].entry, p)
  }

  ghost predicate NotInLayer(items: seq<Item>, i: nat, p: Path) {
    && i < |items|
    && forall j {:trigger items[j]} :: 0 <= j < i && items[j].layer == items[i].layer ==> !Writes(items[j].entry, p)
  }

  /** The entry that the hard link `i` to `p` refers to: one of its own layer first, else one still in force. */
  ghost predicate Refers(items: seq<Item>, i: nat, p: Path, s: nat) {
    InLayer(items, i, p, s) || (NotInLayer(items, i, p) && LastWriter(items, i, p, s))
  }

  /** The data of a hard link is that of the node it refers to. */
  predicate SharesData(n: Node, m: Node) {
    m.kind == File && n.size == m.size && n.tarRef == m.tarRef && n.tarOffset == m.tarOffset
  }

  /** The entry's own attributes, and the data its type calls for; that of a hard link is left open. */
  predicate MadeBy(e: TarEntry, tarRef: Name, n: Node) {
    && n.attrs == e.attrs
    && match e.typ
       case TypeDir => n.kind == Dir && n.size == 0 && n.tarRef == [] && n.tarOffset == 0 && n.link == []
       case TypeReg =>
         n.kind == File && n.size == e.size && n.tarRef == tarRef && n.tarOffset == e.offset && n.link == []
       case TypeDevice =>
         n.kind == File && n.size == 0 && n.tarRef == tarRef && n.tarOffset == e.offset && n.link == []
       case TypeSymlink(l) =>
         && n.kind == Symlink && n.size == |l| == |n.link| && n.tarRef == [] && n.tarOffset == 0
         && forall x :: 0 <= x < |l| ==> n.link[x] == if l[x] == 92 then 47 else l[x]
       case TypeLink(to) => n.kind == File && n.link == [] && to.Named?
       case _ => false
  }

  /** `n` is the node that entry `i` makes, a hard link with the data of the entry it refers to. */
  ghost predicate Made(items: seq<Item>, i: nat, n: Node)
    requires i < |items|
    decreases i
  {
    var t := items[i].entry.typ;
    && MadeBy(items[i].entry, items[i].tarRef, n)
    && (t.TypeLink? ==>
          exists s: nat, m: Node {:trigger Made(items, s, m)} ::
            s < i && Refers(items, i, t.to.path, s) && Made(items, s, m) && SharesData(n, m))
  }

  predicate MakesFile(t: EntryType) { t.TypeReg? || t.TypeDevice? || t.TypeLink? }

  /** The entry is accepted: its name is not refused, its type is known, and a hard link refers to a file. */
  ghost predicate Accepted(items: seq<Item>, i: nat)
    requires i < |items|
  {
    var e := items[i].entry;
    && e.name != Refused
    && (e.name.Named? && !Marks(e.name.path) ==>
          && !e.typ.TypeOther?
          && (e.typ.TypeLink? ==>
                && e.typ.to.Named?
                && exists s: nat :: s < i && Refers(items, i, e.typ.to.path, s) && MakesFile(items[s].entry.typ)))
  }

  /** Some entry is the last writer of `p`. */
  ghost predicate Written(items: seq<Item>, p: Path) { exists i: nat :: LastWriter(items, |items|, p, i) }

  /** No entry writes or takes away `p`. */
  ghost predicate Untouched(items: seq<Item>, p: Path) {
    forall j {:trigger items[j]} :: 0 <= j < |items| ==> !Writes(items[j].entry, p) && !Deletes(items[j].entry, p)
  }

  /**
    The index holds just the paths with a last writer, each with the node that this entry makes; and the root,
    as it was at the start, unless an entry touches it.
   */
  ghost predicate Sourced(items: seq<Item>, m: map<Path, Node>) {
    forall p {:trigger p in m} ::
      && (forall i: nat :: LastWriter(items, |items|, p, i) ==> p in m && Made(items, i, m[p]))
      && (p == [] && Untouched(items, p) ==> p in m && m[p] == DEFAULT_DIR)
      && (p in m ==> (p == [] && Untouched(items, p)) || Written(items, p))
  }

  // ----- the actions of the entries one by one -----

  /** The first entry of the layer that entry `i` belongs to. */
  function Start(items: seq<Item>, i: nat): (b: nat)
    requires i < |items|
    ensures b <= i
  {
    if i > 0 && items[i - 1].layer == items[i].layer then Start(items, i - 1) else i
  }

  /** The actions of the first `n` entries, behind the one that puts the root. */
  function Run(items: seq<Item>, n: nat): (r: Option<seq<Action>>)
    requires n <= |items|
    ensures r.Some? ==> |r.value| == n + 1
  {
    if n == 0 then Some([Put([], DEFAULT_DIR)])
    else
      var r, it, b := Run(items, n - 1), items[n - 1], Start(items, n - 1) + 1;
      if r.None? then None
      else
        var a := ActionOf(it.entry, it.tarRef, Linked(r.value[..b], r.value[b..], it.entry.typ));
        if a.None? then None else Some(r.value + [a.value])
  }

  lemma {:induction false} StartPrefix(items: seq<Item>, items': seq<Item>, i: nat)
    requires i < |items| && items <= items'
    ensures Start(items', i) == Start(items, i)
  {
    if i > 0 { StartPrefix(items, items', i - 1); }
  }

  lemma {:induction false} RunPrefix(items: seq<Item>, items': seq<Item>, n: nat)
    requires n <= |items| && items <= items'
    ensures Run(items', n) == Run(items, n)
  {
    if n > 0 {
      assert items'[n - 1] == items[n - 1];
      StartPrefix(items, items', n - 1);
      RunPrefix(items, items', n - 1);
    }
  }

  lemma {:induction false} StartInLast(items: seq<Item>, base: nat, i: nat)
    requires base <= i < |items| && (base > 0 ==> items[base - 1].layer != items[base].layer)
    requires forall j {:trigger items[j]} :: base <= j < |items| ==> items[j].layer == items[i].layer
    ensures Start(items, i) == base
  {
    if i > base { StartInLast(items, base, i - 1); }
  }

  lemma {:induction false} RunNext(items: seq<Item>, n: nat, before: seq<Action>, layer: seq<Action>)
    requires n < |items| && Run(items, n) == Some(before + layer) && |before| == Start(items, n) + 1
    ensures var a := ActionOf(items[n].entry, items[n].tarRef, Linked(before, layer, items[n].entry.typ));
            Run(items, n + 1) == if a.None? then None else Some(before + (layer + [a.value]))
  {
    var b := |before|;
    assert (before + layer)[..b] == before && (before + layer)[b..] == layer;
    var a := ActionOf(items[n].entry, items[n].tarRef, Linked(before, layer, items[n].entry.typ));
    if a.Some? { Assoc(before, layer, [a.value]); }
  }

  /** Entries from `base` on are those of one layer, the last. */
  ghost predicate LastLayer(items: seq<Item>, base: nat, l: Layer, k: nat) {
    && base + |l.entries| == |items| && (base > 0 ==> items[base - 1].layer < k)
    && forall j {:trigger items[j]} :: base <= j < |items| ==> items[j] == Item(k, l.tarRef, l.entries[j - base])
  }

  lemma {:induction false} LayerNext(before: seq<Action>, tarRef: Name, es: seq<TarEntry>, n: nat)
    requires n < |es|
    ensures var r := LayerActions(before, tarRef, es[..n]);
            var a := if r.None? then None else ActionOf(es[n], tarRef, Linked(before, r.value, es[n].typ));
            LayerActions(before, tarRef, es[..n + 1]) == if a.None? then None else Some(r.value + [a.value])
  {
    TakeNext(es, n);
  }

  /** `n` entries of the last layer run as its actions do. */
  ghost predicate RunsLayer(items: seq<Item>, base: nat, before: seq<Action>, l: Layer, n: nat) {
    && base + n <= |items| && n <= |l.entries|
    && var r := LayerActions(before, l.tarRef, l.entries[..n]);
       Run(items, base + n) == if r.None? then None else Some(before + r.value)
  }

  lemma {:induction false} RunsLayerNext(items: seq<Item>, base: nat, before: seq<Action>, l: Layer, k: nat, n: nat)
    requires RunsLayer(items, base, before, l, n) && n < |l.entries| && base + n < |items|
    requires items[base + n] == Item(k, l.tarRef, l.entries[n]) && |before| == Start(items, base + n) + 1
    ensures RunsLayer(items, base, before, l, n + 1)
  {
    var r := LayerActions(before, l.tarRef, l.entries[..n]);
    if r.Some? { RunNext(items, base + n, before, r.value); }
    LayerNext(before, l.tarRef, l.entries, n);
  }

  /** The last layer's part of the run. */
  lemma {:induction false} RunLayer(items: seq<Item>, base: nat, before: seq<Action>, l: Layer, k: nat, n: nat)
    requires LastLayer(items, base, l, k) && n <= |l.entries| && Run(items, base) == Some(before)
    ensures RunsLayer(items, base, before, l, n)
  {
    if n == 0 {
      assert before + [] == before;
    } else {
      RunLayer(items, base, before, l, k, n - 1);
      StartInLast(items, base, base + n - 1);
      RunsLayerNext(items, base, before, l, k, n - 1);
    }
  }

  lemma {:induction false} RunStops(items: seq<Item>, n: nat, m: nat)
    requires n <= m <= |items| && Run(items, n).None?
    ensures Run(items, m).None?
  {
    if n < m { RunStops(items, n, m - 1); }
  }

  /** Each entry knows its layer. */
  lemma {:induction false} ItemAt(layers: seq<Layer>, i: nat)
    requires i < |AllItems(layers)|
    ensures var it := AllItems(layers)[i];
            it.layer < |layers| && it.tarRef == layers[it.layer].tarRef && it.entry in layers[it.layer].entries
  {
    var n := |layers| - 1;
    var front := AllItems(layers[..n]);
    if i < |front| { ItemAt(layers[..n], i); }
  }

  /** The entries run as the layers do. */
  lemma {:induction false} ImageRuns(layers: seq<Layer>)
    ensures ImageActions(layers) == Run(AllItems(layers), |AllItems(layers)|)
  {
    if layers != [] {
      var n := |layers| - 1;
      var items, front := AllItems(layers), AllItems(layers[..n]);
      var base := |front|;
      ImageRuns(layers[..n]);
      RunPrefix(front, items, base);
      var r := ImageActions(layers[..n]);
      if r.Some? {
        var l := layers[n];
        if base > 0 { ItemAt(layers[..n], base - 1); }
        assert l.entries[..|l.entries|] == l.entries;
        RunLayer(items, base, r.value, l, n, |l.entries|);
      } else {
        RunStops(items, base, |items|);
      }
    }
  }

  ghost predicate Ordered(items: seq<Item>) {
    forall i, j {:trigger items[i], items[j]} :: 0 <= i < j < |items| ==> items[i].layer <= items[j].layer
  }

  lemma {:induction false} ImageOrdered(layers: seq<Layer>)
    ensures Ordered(AllItems(layers))
  {
    if layers != [] {
      var n := |layers| - 1;
      var items, front := AllItems(layers), AllItems(layers[..n]);
      ImageOrdered(layers[..n]);
      forall i, j {:trigger items[i], items[j]} | 0 <= i < j < |items| ensures items[i].layer <= items[j].layer {
        if i < |front| <= j {
          ItemAt(layers[..n], i);
        }
      }
    }
  }

  lemma {:induction false} StartSplits(items: seq<Item>, i: nat, j: nat)
    requires Ordered(items) && j < i < |items|
    ensures items[j].layer == items[i].layer <==> Start(items, i) <= j
  {
    if j < i - 1 { StartSplits(items, i - 1, j); }
  }

  /** What was done for the first entries stays done. */
  lemma {:induction false} RunAt(items: seq<Item>, n: nat, i: nat)
    requires i <= n <= |items| && Run(items, n).Some?
    ensures Run(items, i).Some? && Run(items, i).value == Run(items, n).value[..i + 1]
  {
    if i < n {
      RunAt(items, n - 1, i);
    }
  }

  // ----- an entry and its action -----

  lemma {:induction false} ActionShape(e: TarEntry, tarRef: Name, linked: Option<Node>, p: Path)
    requires ActionOf(e, tarRef, linked).Some?
    ensures var a := ActionOf(e, tarRef, linked).value;
            && (Writes(e, p) <==> Names(a, p))
            && (Deletes(e, p) <==> Covers(a, p))
  {}

  /** An action does what its entry says: the same paths written and taken away, and the node the type calls for. */
  ghost predicate Performs(a: Action, e: TarEntry, tarRef: Name, linked: Option<Node>) {
    && (forall p {:trigger Names(a, p)} {:trigger Writes(e, p)} :: Writes(e, p) <==> Names(a, p))
    && (forall p {:trigger Covers(a, p)} {:trigger Deletes(e, p)} :: Deletes(e, p) <==> Covers(a, p))
    && (a.Put? ==> MadeBy(e, tarRef, a.node))
    && (a.Put? && e.typ.TypeLink? ==> linked.Some? && SharesData(a.node, linked.value))
  }

  lemma {:induction false} ActionPerforms(e: TarEntry, tarRef: Name, linked: Option<Node>)
    requires ActionOf(e, tarRef, linked).Some?
    ensures Performs(ActionOf(e, tarRef, linked).value, e, tarRef, linked)
  {
    forall p
      ensures Writes(e, p) <==> Names(ActionOf(e, tarRef, linked).value, p)
      ensures Deletes(e, p) <==> Covers(ActionOf(e, tarRef, linked).value, p)
    {
      ActionShape(e, tarRef, linked, p);
    }
  }

  /** The action of entry `i` writes and takes away what the entry does. */
  lemma {:induction false} RunShape(items: seq<Item>, n: nat, i: nat, p: Path)
    requires i < n <= |items| && Run(items, n).Some?
    ensures var a := Run(items, n).value[i + 1];
            && (Writes(items[i].entry, p) <==> Names(a, p))
            && (Deletes(items[i].entry, p) <==> Covers(a, p))
  {
    RunAt(items, n, i + 1);
    var r, it, b := Run(items, i).value, items[i], Start(items, i) + 1;
    ActionShape(it.entry, it.tarRef, Linked(r[..b], r[b..], it.entry.typ), p);
  }

  /** What an action list says of a path is what the entries say. */
  lemma {:induction false} WriterSurvives(items: seq<Item>, n: nat, p: Path, i: nat)
    requires n <= |items| && Run(items, n).Some? && i < n
    ensures Survives(Run(items, n).value, p, i + 1) <==> LastWriter(items, n, p, i)
  {
    var acts := Run(items, n).value;
    forall j | 0 <= j < n
      ensures Writes(items[j].entry, p) <==> Names(acts[j + 1], p)
      ensures Deletes(items[j].entry, p) <==> Covers(acts[j + 1], p)
    {
      RunShape(items, n, j, p);
    }
    if LastWriter(items, n, p, i) {
      forall j | i + 1 < j < |acts| ensures !Settles(acts[j], p) { assert !Writes(items[j - 1].entry, p); }
    }
    if Survives(acts, p, i + 1) {
      forall j {:trigger items[j]} | i < j < n ensures !Writes(items[j].entry, p) && !Deletes(items[j].entry, p) {
        assert !Settles(acts[j + 1], p);
      }
    }
  }

  /** The last action of the layer that names `p`, in the layer's part of the run, is that of the last entry. */
  lemma {:induction false} LayerNaming(items: seq<Item>, i: nat, p: Path, s: nat)
    requires Ordered(items) && s < i < |items| && Run(items, i).Some? && Start(items, i) <= s
    ensures LastNaming(Run(items, i).value[Start(items, i) + 1..], p, s - Start(items, i)) <==> InLayer(items, i, p, s)
  {
    var acts, b := Run(items, i).value, Start(items, i) + 1;
    var layer := acts[b..];
    StartSplits(items, i, s);
    forall j | b - 1 <= j < i ensures Writes(items[j].entry, p) <==> Names(layer[j + 1 - b], p) {
      RunShape(items, i, j, p);
    }
    if InLayer(items, i, p, s) {
      forall j | s + 1 - b < j < |layer| ensures !Names(layer[j], p) { assert !Writes(items[j + b - 1].entry, p); }
    }
    if LastNaming(layer, p, s + 1 - b) {
      forall j {:trigger items[j]} | s < j < i ensures !Writes(items[j].entry, p) {
        assert !Names(layer[j + 1 - b], p);
      }
    }
  }

  lemma {:induction false} LayerNames(items: seq<Item>, i: nat, p: Path)
    requires Ordered(items) && i < |items| && Run(items, i).Some?
    ensures NamedIn(Run(items, i).value[Start(items, i) + 1..], p) <==> !NotInLayer(items, i, p)
  {
    var acts, b := Run(items, i).value, Start(items, i) + 1;
    var layer := acts[b..];
    forall j | 0 <= j < i
      ensures Writes(items[j].entry, p) <==> Names(acts[j + 1], p)
      ensures items[j].layer == items[i].layer <==> b <= j + 1
    {
      RunShape(items, i, j, p);
      StartSplits(items, i, j);
    }
    if !NotInLayer(items, i, p) {
      var j :| 0 <= j < i && items[j].layer == items[i].layer && Writes(items[j].entry, p);
      assert Names(layer[j + 1 - b], p);
    }
    if x :| 0 <= x < |layer| && Names(layer[x], p) {
      assert Writes(items[x + b - 1].entry, p);
    }
  }

  lemma {:induction false} UnnamedHasNoPut(layer: seq<Action>, p: Path)
    requires !NamedIn(layer, p)
    ensures LastPut(layer, p).None?
  {
    if layer != [] {
      var n := |layer| - 1;
      forall i | 0 <= i < n ensures !Names(layer[..n][i], p) { assert !Names(layer[i], p); }
      assert !Names(layer[n], p);
      UnnamedHasNoPut(layer[..n], p);
    }
  }

  /** A hard link gets the node of the entry it refers to. */
  lemma {:induction false} LinkedIsReferred(items: seq<Item>, i: nat, p: Path, s: nat)
    requires Ordered(items) && i < |items| && Run(items, i).Some? && Refers(items, i, p, s)
    ensures var acts, b := Run(items, i).value, Start(items, i) + 1;
            s < i && Names(acts[s + 1], p) && Linked(acts[..b], acts[b..], TypeLink(Named(p))) == Some(acts[s + 1].node)
  {
    var acts, b := Run(items, i).value, Start(items, i) + 1;
    if InLayer(items, i, p, s) {
      StartSplits(items, i, s);
      LayerNaming(items, i, p, s);
      LastPutIsLast(acts[b..], p, s + 1 - b);
    } else {
      LayerNames(items, i, p);
      UnnamedHasNoPut(acts[b..], p);
      WriterSurvives(items, i, p, s);
      SurvivorIsFound(acts, p, s + 1);
      assert acts[..b] + acts[b..] == acts;
    }
  }

  lemma {:induction false} NamedRefers(items: seq<Item>, i: nat, p: Path) returns (s: nat)
    requires Ordered(items) && i < |items| && Run(items, i).Some?
    requires NamedIn(Run(items, i).value[Start(items, i) + 1..], p)
    ensures InLayer(items, i, p, s)
  {
    var b := Start(items, i);
    var x := LastNamingExists(Run(items, i).value[b + 1..], p);
    s := b + x;
    LayerNaming(items, i, p, s);
  }

  lemma {:induction false} RunStart(items: seq<Item>, n: nat)
    requires n <= |items| && Run(items, n).Some?
    ensures Run(items, n).value[0] == Put([], DEFAULT_DIR)
  {
    RunAt(items, n, 0);
  }

  lemma {:induction false} FoundRefers(items: seq<Item>, i: nat, p: Path) returns (s: nat)
    requires i <= |items| && Run(items, i).Some?
    requires var f := Find(Run(items, i).value, p); f.Some? && f.value.kind == File
    ensures LastWriter(items, i, p, s)
  {
    var acts := Run(items, i).value;
    var x := FoundSurvives(acts, p);
    SurvivorIsFound(acts, p, x);
    RunStart(items, i);
    s := x - 1;
    WriterSurvives(items, i, p, s);
  }

  /** ... and there is such an entry, if it gets a file at all. */
  lemma {:induction false} LinkedRefers(items: seq<Item>, i: nat, p: Path) returns (s: nat)
    requires Ordered(items) && i < |items| && Run(items, i).Some?
    requires var acts, b := Run(items, i).value, Start(items, i) + 1;
             var l := Linked(acts[..b], acts[b..], TypeLink(Named(p)));
             l.Some? && l.value.kind == File
    ensures Refers(items, i, p, s)
  {
    var acts, b := Run(items, i).value, Start(items, i) + 1;
    LayerNames(items, i, p);
    if NamedIn(acts[b..], p) {
      s := NamedRefers(items, i, p);
    } else {
      UnnamedHasNoPut(acts[b..], p);
      assert acts[..b] + acts[b..] == acts;
      s := FoundRefers(items, i, p);
    }
  }

  lemma {:induction false} RunAction(items: seq<Item>, n: nat, i: nat)
    requires i < n <= |items| && Run(items, n).Some?
    ensures Run(items, i).Some?
    ensures var acts, it, b := Run(items, i).value, items[i], Start(items, i) + 1;
            ActionOf(it.entry, it.tarRef, Linked(acts[..b], acts[b..], it.entry.typ)) ==
            Some(Run(items, n).value[i + 1])
  {
    RunAt(items, n, i + 1);
  }

  lemma {:induction false} ActionMakes(items: seq<Item>, i: nat, linked: Option<Node>, s: nat)
    requires i < |items|
    requires var a := ActionOf(items[i].entry, items[i].tarRef, linked); a.Some? && a.value.Put?
    requires var t := items[i].entry.typ;
             t.TypeLink? && t.to.Named? && linked.Some? ==>
               s < i && Refers(items, i, t.to.path, s) && Made(items, s, linked.value)
    ensures Made(items, i, ActionOf(items[i].entry, items[i].tarRef, linked).value.node)
  {
    ActionPerforms(items[i].entry, items[i].tarRef, linked);
    if items[i].entry.typ.TypeLink? { assert Made(items, s, linked.value); }
  }

  /** Every entry that writes a node makes the one that its type calls for. */
  lemma {:induction false} RunMakes(items: seq<Item>, n: nat, i: nat)
    requires Ordered(items) && i < n <= |items| && Run(items, n).Some? && Run(items, n).value[i + 1].Put?
    ensures Made(items, i, Run(items, n).value[i + 1].node)
    decreases i
  {
    RunAction(items, n, i);
    var acts, e, b, s := Run(items, i).value, items[i].entry, Start(items, i) + 1, 0;
    var linked := Linked(acts[..b], acts[b..], e.typ);
    if e.typ.TypeLink? && e.typ.to.Named? && linked.Some? {
      s := LinkedRefers(items, i, e.typ.to.path);
      LinkedIsReferred(items, i, e.typ.to.path, s);
      RunMakes(items, i, s);
    }
    ActionMakes(items, i, linked, s);
  }

  // ----- the index and its entries -----

  lemma {:induction false} RootSurvives(items: seq<Item>, p: Path)
    requires Run(items, |items|).Some?
    ensures Survives(Run(items, |items|).value, p, 0) <==> p == [] && Untouched(items, p)
  {
    var n := |items|;
    var acts := Run(items, n).value;
    RunStart(items, n);
    forall j | 0 <= j < n
      ensures Writes(items[j].entry, p) <==> Names(acts[j + 1], p)
      ensures Deletes(items[j].entry, p) <==> Covers(acts[j + 1], p)
    {
      RunShape(items, n, j, p);
    }
    if p == [] && Untouched(items, p) {
      forall j | 0 < j < |acts| ensures !Settles(acts[j], p) { assert !Writes(items[j - 1].entry, p); }
    }
    if Survives(acts, p, 0) {
      forall j {:trigger items[j]} | 0 <= j < n ensures !Writes(items[j].entry, p) && !Deletes(items[j].entry, p) {
        assert !Settles(acts[j + 1], p);
      }
    }
  }

  /** The last writer of a path is found, with the node it makes. */
  lemma {:induction false} WriterFound(items: seq<Item>, p: Path, i: nat)
    requires Ordered(items) && Run(items, |items|).Some? && LastWriter(items, |items|, p, i)
    ensures var f := Find(Run(items, |items|).value, p); f.Some? && Made(items, i, f.value)
  {
    WriterSurvives(items, |items|, p, i);
    SurvivorIsFound(Run(items, |items|).value, p, i + 1);
    RunMakes(items, |items|, i);
  }

  /** The root that nothing touches is found too. */
  lemma {:induction false} RootFound(items: seq<Item>, p: Path)
    requires Run(items, |items|).Some? && p == [] && Untouched(items, p)
    ensures Find(Run(items, |items|).value, p) == Some(DEFAULT_DIR)
  {
    RunStart(items, |items|);
    RootSurvives(items, p);
    SurvivorIsFound(Run(items, |items|).value, p, 0);
  }

  /** And nothing else is. */
  lemma {:induction false} FoundIsWritten(items: seq<Item>, p: Path)
    requires Run(items, |items|).Some? && Find(Run(items, |items|).value, p).Some?
    ensures (p == [] && Untouched(items, p)) || Written(items, p)
  {
    var x := FoundSurvives(Run(items, |items|).value, p);
    RootSurvives(items, p);
    if x > 0 { WriterSurvives(items, |items|, p, x - 1); }
  }

  /** Any index that shows the actions of an image holds what its tar entries say. */
  lemma {:induction false} ImageSourced(layers: seq<Layer>, m: map<Path, Node>)
    requires ImageActions(layers).Some? && Shows(m, ImageActions(layers).value)
    ensures Sourced(AllItems(layers), m)
  {
    var items := AllItems(layers);
    ImageRuns(layers);
    ImageOrdered(layers);
    forall p {:trigger p in m}
      ensures forall i: nat :: LastWriter(items, |items|, p, i) ==> p in m && Made(items, i, m[p])
      ensures p == [] && Untouched(items, p) ==> p in m && m[p] == DEFAULT_DIR
      ensures p in m ==> (p == [] && Untouched(items, p)) || Written(items, p)
    {
      if p == [] && Untouched(items, p) { RootFound(items, p); }
      forall i: nat | LastWriter(items, |items|, p, i) ensures p in m && Made(items, i, m[p]) {
        WriterFound(items, p, i);
      }
      if p in m { FoundIsWritten(items, p); }
    }
  }

  lemma {:induction false} ActionAccepted(items: seq<Item>, i: nat)
    requires Ordered(items) && i < |items| && Run(items, i).Some?
    ensures Run(items, i + 1).Some? <==> Accepted(items, i)
  {
    var e, acts, b := items[i].entry, Run(items, i).value, Start(items, i) + 1;
    if e.name.Named? && !Marks(e.name.path) && e.typ.TypeLink? && e.typ.to.Named? {
      var p := e.typ.to.path;
      var linked := Linked(acts[..b], acts[b..], e.typ);
      if linked.Some? && linked.value.kind == File {
        var s := LinkedRefers(items, i, p);
        LinkedIsReferred(items, i, p, s);
        RunMakes(items, i, s);
      }
      forall s: nat | s < i && Refers(items, i, p, s) && MakesFile(items[s].entry.typ)
        ensures linked.Some? && linked.value.kind == File
      {
        LinkedIsReferred(items, i, p, s);
        RunMakes(items, i, s);
      }
    }
  }

  lemma {:induction false} RunAccepted(items: seq<Item>, n: nat)
    requires Ordered(items) && n <= |items|
    ensures Run(items, n).Some? <==> forall i :: 0 <= i < n ==> Accepted(items, i)
  {
    if n > 0 {
      RunAccepted(items, n - 1);
      if Run(items, n - 1).Some? { ActionAccepted(items, n - 1); }
    }
  }

  /** An image has an index exactly if each of its entries is accepted. */
  lemma {:induction false} ImageAccepted(layers: seq<Layer>)
    ensures ImageActions(layers).Some? <==>
            forall i :: 0 <= i < |AllItems(layers)| ==> Accepted(AllItems(layers), i)
  {
    ImageRuns(layers);
    ImageOrdered(layers);
    RunAccepted(AllItems(layers), |AllItems(layers)|);
  }

  /** Entry `s` is a regular file or a device whose data the node stands for. */
  predicate HasData(it: Item, n: Node) {
    && (it.entry.typ.TypeReg? || it.entry.typ.TypeDevice?)
    && n.tarRef == it.tarRef && n.tarOffset == it.entry.offset
    && n.size == if it.entry.typ.TypeReg? then it.entry.size else 0
  }

  /** The data of every file is that of a regular file or a device entry, however many hard links lie between. */
  lemma {:induction false} FileHasData(items: seq<Item>, i: nat, n: Node) returns (s: nat)
    requires i < |items| && Made(items, i, n) && n.kind == File
    ensures s <= i && HasData(items[s], n)
    decreases i
  {
    s := i;
    if items[i].entry.typ.TypeLink? {
      var k: nat, m: Node :| k < i && Refers(items, i, items[i].entry.typ.to.path, k) && Made(items, k, m) &&
        SharesData(n, m);
      s := FileHasData(items, k, m);
    }
  }

  /** Every file of the index has the data of an entry of the layer that it names. */
  lemma {:induction false} IndexedFileHasData(layers: seq<Layer>, m: map<Path, Node>, p: Path) returns (s: nat)
    requires Sourced(AllItems(layers), m) && p in m && m[p].kind == File
    ensures s < |AllItems(layers)| && HasData(AllItems(layers)[s], m[p])
    ensures var it := AllItems(layers)[s];
            it.layer < |layers| && layers[it.layer].tarRef == m[p].tarRef && it.entry in layers[it.layer].entries
  {
    var items := AllItems(layers);
    assert Written(items, p);
    var i: nat :| LastWriter(items, |items|, p, i);
    s := FileHasData(items, i, m[p]);
    ItemAt(layers, s);
  }
}
