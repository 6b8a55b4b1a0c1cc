/** The directory tree built from a merged index, and lookups in it. */
module OciTree {
  import opened Bytes
  import opened ByteStrings
  import opened Common
  import opened Paths
  import opened OciActions
  import opened OciMerge
  import opened OciOrigin

  datatype IndexedNode = IndexedNode(path: Path, node: Node)
  datatype Entry = DirEntry(dir: IndexedDir) | FileEntry(node: Node) | LinkEntry(node: Node)

  datatype DirEnt = DirEnt(name: Name, kind: Kind, mode: u32)

  /** What a directory says of one of its entries. */
  function DirEntOf(name: Name, e: Entry): DirEnt
    reads if e.DirEntry? then {e.dir} else {}
  {
    match e
    case DirEntry(dir) => DirEnt(name, Dir, dir.attrs.mode)
    case FileEntry(n) => DirEnt(name, File, n.attrs.mode)
    case LinkEntry(n) => DirEnt(name, Symlink, n.attrs.mode)
  }

  function NamesOf(ents: seq<DirEnt>): (names: seq<Name>)
    ensures |names| == |ents| && forall i :: 0 <= i < |ents| ==> names[i] == ents[i].name
  {
    seq(|ents|, i requires 0 <= i < |ents| => ents[i].name)
  }

  class IndexedDir {
    var attrs: Attrs
    var entries: map<Name, Entry>

    constructor (attrs: Attrs)
      ensures this.attrs == attrs && entries == map[]
    {
      this.attrs, entries := attrs, map[];
    }

    function Lookup(name: Name): (r: Option<Entry>)
      reads this
      ensures r.Some? <==> name in entries
    {
      if name in entries then Some(entries[name]) else None
    }

    /** The entries, each once, in ascending order of their names. */
    method ReadDir() returns (out: seq<DirEnt>)
      ensures Ascending(NamesOf(out)) && Elements(NamesOf(out)) == entries.Keys
      ensures forall e :: e in out ==> e.name in entries && e == DirEntOf(e.name, entries[e.name])
    {
      var keys := CollectKeys(entries);
      SortStringsAscending(keys);
      keys := SortStrings(keys);
      out := [];
      for i := 0 to |keys|
        invariant |out| == i && forall j :: 0 <= j < i ==> out[j].name == keys[j]
        invariant forall e :: e in out ==> e.name in entries && e == DirEntOf(e.name, entries[e.name])
      {
        assert keys[i] in Elements(keys);
        out := out + [DirEntOf(keys[i], entries[keys[i]])];
      }
      assert NamesOf(out) == keys;
    }
  }

  /** The directories of an index: the root, and every path indexed as a directory. */
  predicate IsDir(index: map<Path, Node>, p: Path) {
    p == [] || (p in index && index[p].kind == Dir)
  }

  /** Every indexed path lies in a directory of the index. */
  ghost predicate Treelike(index: map<Path, Node>) {
    forall p {:trigger p in index} :: p in index && p != [] ==> IsDir(index, Above(p))
  }

  predicate Matches(e: Entry, n: Node, d: map<Path, IndexedDir>, p: Path) {
    match n.kind
    case Dir => p in d && e == DirEntry(d[p])
    case File => e == FileEntry(n)
    case Symlink => e == LinkEntry(n)
  }

  /** The entries `es` of directory `p` are exactly the indexed children of `p`. */
  ghost predicate Lists(dirs: map<Path, IndexedDir>, es: map<Name, Entry>, index: map<Path, Node>, p: Path) {
    forall name {:trigger name in es} {:trigger p + [name]} ::
      && (name in es <==> p + [name] in index)
      && (name in es ==> Matches(es[name], index[p + [name]], dirs, p + [name]))
  }

  /** There is one directory object per directory of the index. */
  ghost predicate Shaped(dirs: map<Path, IndexedDir>, index: map<Path, Node>) {
    && (forall p {:trigger p in dirs} :: p in dirs <==> IsDir(index, p))
    && (forall p, q :: p in dirs && q in dirs && dirs[p] == dirs[q] ==> p == q)
    && Treelike(index)
  }

  /** A directory with these attributes and entries is what the index says of `p`. */
  ghost predicate Shows1(dirs: map<Path, IndexedDir>, attrs: Attrs, es: map<Name, Entry>, index: map<Path, Node>,
                         p: Path) {
    Lists(dirs, es, index, p) && (p in index ==> attrs == index[p].attrs)
  }

  /** The tree of directories `dirs` shows the index. */
  ghost predicate Represents(dirs: map<Path, IndexedDir>, index: map<Path, Node>)
    reads dirs.Values
  {
    && Shaped(dirs, index)
    && forall p {:trigger dirs[p]} :: p in dirs ==> Shows1(dirs, dirs[p].attrs, dirs[p].entries, index, p)
  }

  // ----- the index a sorted list of nodes stands for -----

  function IndexOf(nodes: seq<IndexedNode>): map<Path, Node> {
    if nodes == [] then map[]
    else IndexOf(nodes[..|nodes| - 1])[nodes[|nodes| - 1].path := nodes[|nodes| - 1].node]
  }

  /** Clean paths in the order of their spelling, each one once. */
  ghost predicate Sorted(nodes: seq<IndexedNode>) {
    && (forall i :: 0 <= i < |nodes| ==> Clean(nodes[i].path))
    && (forall i, j :: 0 <= i < j < |nodes| ==> Less(Text(nodes[i].path), Text(nodes[j].path)))
  }

  lemma {:induction false} IndexHas(nodes: seq<IndexedNode>, p: Path) returns (i: nat)
    requires p in IndexOf(nodes)
    ensures i < |nodes| && nodes[i].path == p
  {
    if nodes[|nodes| - 1].path == p {
      i := |nodes| - 1;
    } else {
      i := IndexHas(nodes[..|nodes| - 1], p);
    }
  }

  lemma {:induction false} IndexAt(nodes: seq<IndexedNode>, i: nat)
    requires i < |nodes| && Sorted(nodes)
    ensures nodes[i].path in IndexOf(nodes) && IndexOf(nodes)[nodes[i].path] == nodes[i].node
  {
    var n := |nodes| - 1;
    if i < n {
      IndexAt(nodes[..n], i);
      LessIrreflexive(Text(nodes[i].path));
      assert Less(Text(nodes[i].path), Text(nodes[n].path));
    }
  }

  /** When a node's turn comes, what the index says about its directory is settled. */
  lemma {:induction false} ParentSettled(nodes: seq<IndexedNode>, i: nat)
    requires Sorted(nodes) && i < |nodes| && nodes[i].path != []
    ensures nodes[i].path !in IndexOf(nodes[..i])
    ensures IsDir(IndexOf(nodes[..i]), Above(nodes[i].path)) <==> IsDir(IndexOf(nodes), Above(nodes[i].path))
  {
    var p := nodes[i].path;
    var d := Above(p);
    if p in IndexOf(nodes[..i]) {
      var j := IndexHas(nodes[..i], p);
      assert Less(Text(nodes[j].path), Text(nodes[i].path));
      LessIrreflexive(Text(p));
    }
    if d != [] && d in IndexOf(nodes) {
      var j := IndexHas(nodes, d);
      ParentFirst(d, p);
      if j >= i {
        assert j == i || Less(Text(p), Text(d));
        if j > i { LessTransitive(Text(d), Text(p), Text(d)); }
        LessIrreflexive(Text(d));
      }
      IndexAt(nodes, j);
      IndexAt(nodes[..i], j);
    }
    if d != [] && d in IndexOf(nodes[..i]) {
      var j := IndexHas(nodes[..i], d);
      IndexAt(nodes, j);
      IndexAt(nodes[..i], j);
    }
  }

  // ----- building -----

  /** A new path changes no directory but its parent. */
  lemma {:induction false} OtherKept(dirs: map<Path, IndexedDir>, dirs': map<Path, IndexedDir>, attrs: Attrs,
                                     es: map<Name, Entry>, index: map<Path, Node>, p: Path, n: Node, q: Path)
    requires p != [] && p != q && q != Above(p) && Shows1(dirs, attrs, es, index, q)
    requires forall r :: r in dirs ==> r in dirs' && dirs'[r] == dirs[r]
    ensures Shows1(dirs', attrs, es, index[p := n], q)
  {
    assert forall x :: Above(q + [x]) == q;
  }

  lemma {:induction false} ParentGains(dirs: map<Path, IndexedDir>, dirs': map<Path, IndexedDir>, attrs: Attrs,
                                       es: map<Name, Entry>, index: map<Path, Node>, p: Path, n: Node, e: Entry)
    requires p != [] && Shows1(dirs, attrs, es, index, Above(p)) && Matches(e, n, dirs', p)
    requires forall r :: r in dirs ==> r in dirs' && dirs'[r] == dirs[r]
    ensures Shows1(dirs', attrs, es[p[|p| - 1] := e], index[p := n], Above(p))
  {
    var d, name := Above(p), p[|p| - 1];
    assert d + [name] == p;
    assert forall x :: (d + [x])[|d|] == x;
  }

  /** Nothing is indexed below a path that is not itself indexed yet. */
  lemma {:induction false} NewDirIsEmpty(dirs: map<Path, IndexedDir>, index: map<Path, Node>, p: Path, n: Node)
    requires Treelike(index) && p != [] && p !in index
    ensures Shows1(dirs, n.attrs, map[], index[p := n], p)
  {
    forall x ensures p + [x] !in index[p := n] {
      assert Above(p + [x]) == p;
    }
  }

  lemma {:induction false} StaysShaped(dirs: map<Path, IndexedDir>, dirs': map<Path, IndexedDir>,
                                       index: map<Path, Node>, p: Path, n: Node)
    requires Shaped(dirs, index) && p != [] && p !in index && Above(p) in dirs
    requires n.kind != Dir ==> dirs' == dirs
    requires n.kind == Dir ==> p in dirs' && dirs' == dirs[p := dirs'[p]] && dirs'[p] !in dirs.Values
    ensures Shaped(dirs', index[p := n])
  {
    var index' := index[p := n];
    forall q | q in index' && q != [] ensures IsDir(index', Above(q)) {
      if q != p { assert IsDir(index, Above(q)); }
    }
  }

  lemma {:induction false} RootShown(dirs: map<Path, IndexedDir>, attrs: Attrs, es: map<Name, Entry>,
                                     index: map<Path, Node>, n: Node, p: Path)
    requires Shows1(dirs, attrs, es, index, p)
    ensures Shows1(dirs, if p == [] then n.attrs else attrs, es, index[[] := n], p)
  {}

  /** The root's own node sets the attributes of the root directory. */
  method SetRoot(dirs: map<Path, IndexedDir>, n: Node, ghost index: map<Path, Node>)
    requires Represents(dirs, index)
    modifies dirs.Values
    ensures Represents(dirs, index[[] := n])
  {
    var root := dirs[[]];
    forall p | p in dirs
      ensures Shows1(dirs, if p == [] then n.attrs else dirs[p].attrs, dirs[p].entries, index[[] := n], p)
    {
      RootShown(dirs, dirs[p].attrs, dirs[p].entries, index, n, p);
    }
    root.attrs := n.attrs;
  }

  /** A file or a symbolic link becomes an entry of its parent. */
  method AddLeaf(dirs: map<Path, IndexedDir>, p: Path, n: Node, ghost index: map<Path, Node>)
    requires Represents(dirs, index) && p != [] && p !in index && Above(p) in dirs && n.kind != Dir
    modifies dirs.Values
    ensures Represents(dirs, index[p := n])
  {
    var parent, name := dirs[Above(p)], p[|p| - 1];
    var e := if n.kind == File then FileEntry(n) else LinkEntry(n);
    StaysShaped(dirs, dirs, index, p, n);
    ParentGains(dirs, dirs, parent.attrs, parent.entries, index, p, n, e);
    forall q | q in dirs && q != Above(p) ensures Shows1(dirs, dirs[q].attrs, dirs[q].entries, index[p := n], q) {
      OtherKept(dirs, dirs, dirs[q].attrs, dirs[q].entries, index, p, n, q);
    }
    parent.entries := parent.entries[name := e];
  }

  /** A directory becomes an entry of its parent and is entered under its path. */
  method AddDir(dirs: map<Path, IndexedDir>, p: Path, n: Node, ghost index: map<Path, Node>)
    returns (dirs': map<Path, IndexedDir>)
    requires Represents(dirs, index) && p != [] && p !in index && Above(p) in dirs && n.kind == Dir
    modifies dirs.Values
    ensures Represents(dirs', index[p := n])
    ensures dirs'[[]] == dirs[[]]
    ensures fresh(dirs'.Values - dirs.Values)
  {
    var parent, name := dirs[Above(p)], p[|p| - 1];
    var dir := new IndexedDir(n.attrs);
    dirs' := dirs[p := dir];
    StaysShaped(dirs, dirs', index, p, n);
    ParentGains(dirs, dirs', parent.attrs, parent.entries, index, p, n, DirEntry(dir));
    NewDirIsEmpty(dirs', index, p, n);
    forall q | q in dirs && q != Above(p) ensures Shows1(dirs', dirs[q].attrs, dirs[q].entries, index[p := n], q) {
      OtherKept(dirs, dirs', dirs[q].attrs, dirs[q].entries, index, p, n, q);
    }
    parent.entries := parent.entries[name := DirEntry(dir)];
  }

  /** A tree without entries shows the empty index. */
  method NewRoot() returns (dirs: map<Path, IndexedDir>)
    ensures Represents(dirs, map[]) && fresh(dirs.Values)
  {
    var root := new IndexedDir(DEFAULT_DIR.attrs);
    dirs := map[[] := root];
  }

  lemma {:induction false} NotTreelike(nodes: seq<IndexedNode>, i: nat)
    requires Sorted(nodes) && i < |nodes| && nodes[i].path != []
    requires !IsDir(IndexOf(nodes[..i]), Above(nodes[i].path))
    ensures !Treelike(IndexOf(nodes))
  {
    ParentSettled(nodes, i);
    IndexAt(nodes, i);
  }

  /** buildIndexedRootFS behind its sort. */
  method BuildSorted(nodes: seq<IndexedNode>) returns (root: Option<IndexedDir>, ghost dirs: map<Path, IndexedDir>)
    requires Sorted(nodes)
    ensures root.Some? <==> Treelike(IndexOf(nodes))
    ensures root.Some? ==> Represents(dirs, IndexOf(nodes)) && root.value == dirs[[]] && fresh(dirs.Values)
  {
    var byPath := NewRoot();
    dirs := byPath;
    for i := 0 to |nodes|
      invariant Represents(byPath, IndexOf(nodes[..i])) && fresh(byPath.Values)
    {
      var p, n := nodes[i].path, nodes[i].node;
      ghost var index := IndexOf(nodes[..i]);
      assert nodes[..i + 1][..i] == nodes[..i];
      if p == [] {
        SetRoot(byPath, n, index);
        continue;
      }
      ParentSettled(nodes, i);
      if Above(p) !in byPath {
        NotTreelike(nodes, i);
        return None, byPath;
      }
      if n.kind == Dir {
        byPath := AddDir(byPath, p, n, index);
      } else {
        AddLeaf(byPath, p, n, index);
      }
    }
    assert nodes[..|nodes|] == nodes;
    return Some(byPath[[]]), byPath;
  }

  /** Every path of the index under its spelling. */
  ghost predicate Spelled(index: map<Path, Node>, left: set<Path>, byText: map<Name, Path>) {
    && (forall t {:trigger byText[t]} :: t in byText ==>
          byText[t] in index && byText[t] !in left && Text(byText[t]) == t)
    && (forall p :: p in index && p !in left ==> Text(p) in byText && byText[Text(p)] == p)
  }

  /** The spellings of the indexed paths, in some order, and the way back. */
  method Spellings(index: map<Path, Node>) returns (texts: seq<Name>, byText: map<Name, Path>)
    requires CleanKeys(index)
    ensures Distinct(texts) && Elements(texts) == byText.Keys && Spelled(index, {}, byText)
  {
    texts, byText := [], map[];
    var left := index.Keys;
    while left != {}
      invariant left <= index.Keys && Distinct(texts) && Elements(texts) == byText.Keys && Spelled(index, left, byText)
      decreases |left|
    {
      var p :| p in left;
      if Text(p) in byText { TextInjective(p, byText[Text(p)]); }
      forall q | q in index && q != p ensures Text(q) != Text(p) { TextInjective(p, q); }
      assert forall t :: t in texts ==> t in Elements(texts);
      assert Elements(texts + [Text(p)]) == Elements(texts) + {Text(p)};
      texts, byText, left := texts + [Text(p)], byText[Text(p) := p], left - {p};
    }
  }

  lemma {:induction false} ListedIndex(nodes: seq<IndexedNode>, index: map<Path, Node>, texts: seq<Name>,
                                       byText: map<Name, Path>)
    requires Sorted(nodes) && |nodes| == |texts| && Spelled(index, {}, byText) && Elements(texts) == byText.Keys
    requires forall j {:trigger nodes[j]} :: 0 <= j < |nodes| ==>
               texts[j] in byText && byText[texts[j]] in index &&
               nodes[j] == IndexedNode(byText[texts[j]], index[byText[texts[j]]])
    ensures IndexOf(nodes) == index
  {
    forall p | p in IndexOf(nodes) ensures p in index && IndexOf(nodes)[p] == index[p] {
      var i := IndexHas(nodes, p);
      IndexAt(nodes, i);
    }
    forall p | p in index ensures p in IndexOf(nodes) {
      assert Text(p) in Elements(texts);
      var i :| 0 <= i < |texts| && texts[i] == Text(p);
      assert nodes[i].path == p;
      IndexAt(nodes, i);
    }
  }

  /** The index as a list sorted by spelling, each path once. */
  method ListIndex(index: map<Path, Node>) returns (nodes: seq<IndexedNode>)
    requires CleanKeys(index)
    ensures Sorted(nodes) && IndexOf(nodes) == index
  {
    var texts, byText := Spellings(index);
    SortStringsAscending(texts);
    texts := SortStrings(texts);
    assert forall t :: t in texts <==> t in Elements(texts);
    nodes := [];
    for i := 0 to |texts|
      invariant |nodes| == i
      invariant forall j {:trigger nodes[j]} :: 0 <= j < i ==>
                  texts[j] in byText && byText[texts[j]] in index &&
                  nodes[j] == IndexedNode(byText[texts[j]], index[byText[texts[j]]])
    {
      assert texts[i] in Elements(texts);
      var p := byText[texts[i]];
      nodes := nodes + [IndexedNode(p, index[p])];
    }
    forall i, j | 0 <= i < j < |nodes| ensures Less(Text(nodes[i].path), Text(nodes[j].path)) {
      assert Less(texts[i], texts[j]);
    }
    ListedIndex(nodes, index, texts, byText);
  }

  /** Clean paths, each one once, in any order; a second node for a path would come before or after the first. */
  ghost predicate OncePerPath(nodes: seq<IndexedNode>) {
    && (forall i :: 0 <= i < |nodes| ==> Clean(nodes[i].path))
    && (forall i, j :: 0 <= i < j < |nodes| ==> nodes[i].path != nodes[j].path)
  }

  lemma {:induction false} SortedIsOncePerPath(nodes: seq<IndexedNode>)
    requires Sorted(nodes)
    ensures OncePerPath(nodes)
  {
    forall i, j | 0 <= i < j < |nodes| ensures nodes[i].path != nodes[j].path {
      LessIrreflexive(Text(nodes[i].path));
      assert Less(Text(nodes[i].path), Text(nodes[j].path));
    }
  }

  /**
    buildIndexedRootFS: succeeds exactly when every path lies in a directory of the index, whatever order
    the nodes come in, and the tree it builds then shows the index.
   */
  method BuildRoot(nodes: seq<IndexedNode>) returns (root: Option<IndexedDir>, ghost dirs: map<Path, IndexedDir>)
    requires OncePerPath(nodes)
    ensures root.Some? <==> Treelike(IndexOf(nodes))
    ensures root.Some? ==> Represents(dirs, IndexOf(nodes)) && root.value == dirs[[]] && fresh(dirs.Values)
  {
    forall p | p in IndexOf(nodes) ensures Clean(p) {
      var i := IndexHas(nodes, p);
    }
    var sorted := ListIndex(IndexOf(nodes));
    root, dirs := BuildSorted(sorted);
  }

  // ----- looking paths up -----

  /** Every directory on the way to an indexed path is in the tree. */
  lemma {:induction false} WayExists(index: map<Path, Node>, p: Path, i: nat)
    requires Treelike(index) && p in index && i < |p|
    ensures IsDir(index, p[..i])
    decreases |p| - i
  {
    if i + 1 == |p| {
      assert p[..i] == Above(p);
    } else {
      WayExists(index, p, i + 1);
      assert Above(p[..i + 1]) == p[..i];
    }
  }

  lemma {:induction false} WayBlocked(index: map<Path, Node>, p: Path, i: nat)
    requires Treelike(index) && 0 < i < |p| && !IsDir(index, p[..i])
    ensures p !in index
  {
    if p in index { WayExists(index, p, i); }
  }

  /** LookupPath finds exactly the indexed paths, and under each of them the node it is indexed with. */
  method LookupPath(root: IndexedDir, p: Path, ghost dirs: map<Path, IndexedDir>, ghost index: map<Path, Node>)
    returns (r: Option<Entry>)
    requires Represents(dirs, index) && root == dirs[[]]
    ensures p == [] ==> r == Some(DirEntry(root))
    ensures p != [] ==> (r.Some? <==> p in index)
    ensures p != [] && r.Some? ==> Matches(r.value, index[p], dirs, p)
  {
    if p == [] {
      return Some(DirEntry(root));
    }
    var current := root;
    for i := 0 to |p|
      invariant p[..i] in dirs && current == dirs[p[..i]]
      invariant i < |p|
    {
      assert Shows1(dirs, current.attrs, current.entries, index, p[..i]);
      assert p[..i] + [p[i]] == p[..i + 1];
      var e := current.Lookup(p[i]);
      if i == |p| - 1 {
        assert p[..i + 1] == p;
        return e;
      }
      if e.None? || !e.value.DirEntry? {
        WayBlocked(index, p, i + 1);
        return None;
      }
      current := e.value.dir;
    }
  }

  /** What the index says of that entry. */
  ghost predicate Describes(ent: DirEnt, index: map<Path, Node>, p: Path, name: Name) {
    p + [name] in index && ent == DirEnt(name, index[p + [name]].kind, index[p + [name]].attrs.mode)
  }

  lemma {:induction false} EntryDescribed(dirs: map<Path, IndexedDir>, index: map<Path, Node>, p: Path, name: Name)
    requires Represents(dirs, index) && p in dirs && name in dirs[p].entries
    ensures Describes(DirEntOf(name, dirs[p].entries[name]), index, p, name)
  {
    var q := p + [name];
    assert Shows1(dirs, dirs[p].attrs, dirs[p].entries, index, p);
    if index[q].kind == Dir { assert Shows1(dirs, dirs[q].attrs, dirs[q].entries, index, q); }
  }

  /** ReadDir of an indexed directory gives exactly its indexed children, with their kind and mode. */
  lemma {:induction false} ReadDirShows(dirs: map<Path, IndexedDir>, index: map<Path, Node>, p: Path, out: seq<DirEnt>)
    requires Represents(dirs, index) && p in dirs && Elements(NamesOf(out)) == dirs[p].entries.Keys
    requires forall e :: e in out ==> e.name in dirs[p].entries && e == DirEntOf(e.name, dirs[p].entries[e.name])
    ensures forall e :: e in out ==> Describes(e, index, p, e.name)
    ensures forall name {:trigger p + [name]} :: name in NamesOf(out) <==> p + [name] in index
  {
    forall e | e in out ensures Describes(e, index, p, e.name) {
      EntryDescribed(dirs, index, p, e.name);
    }
    assert forall name :: name in NamesOf(out) <==> name in Elements(NamesOf(out));
    assert Shows1(dirs, dirs[p].attrs, dirs[p].entries, index, p);
  }

  // ----- from layers to a tree -----

  ghost predicate HoldsBelow(actions: seq<Action>, p: Path) {
    p != [] && exists k {:trigger Find(actions, k)} :: Find(actions, k).Some? && p < k
  }

  /** The index that a list of layers stands for: what survives, and default directories for missing ancestors. */
  ghost predicate ImageIndex(actions: seq<Action>, index: map<Path, Node>) {
    && (forall p {:trigger p in index} :: p in index <==> p == [] || Find(actions, p).Some? || HoldsBelow(actions, p))
    && (forall p {:trigger index[p]} :: p in index ==>
          index[p] == if Find(actions, p).Some? then Find(actions, p).value else DEFAULT_DIR)
  }

  /** What survives lies only below directories. */
  ghost predicate InnerDirs(actions: seq<Action>) {
    forall p, q {:trigger Find(actions, p), Find(actions, q)} ::
      Find(actions, p).Some? && q != [] && q < p && Find(actions, q).Some? ==> Find(actions, q).value.kind == Dir
  }

  lemma {:induction false} ImageIsTreelike(actions: seq<Action>, index: map<Path, Node>)
    requires ImageIndex(actions, index)
    ensures Treelike(index) <==> InnerDirs(actions)
  {
    if Treelike(index) {
      forall p, q | Find(actions, p).Some? && q != [] && q < p && Find(actions, q).Some?
        ensures Find(actions, q).value.kind == Dir
      {
        assert p in index && q in index;
        WayExists(index, p, |q|);
        assert p[..|q|] == q;
      }
    }
    if InnerDirs(actions) {
      forall p {:trigger p in index} | p in index && p != [] ensures IsDir(index, Above(p)) {
        var d := Above(p);
        if d != [] {
          if Find(actions, p).Some? {
            assert d < p && HoldsBelow(actions, d);
          } else {
            var k :| Find(actions, k).Some? && p < k;
            assert d < k && HoldsBelow(actions, d);
          }
          assert d in index;
        }
      }
    }
  }

  lemma {:induction false} ClosedIsImage(actions: seq<Action>, merged: map<Path, Node>, index: map<Path, Node>)
    requires Shows(merged, actions) && CleanKeys(merged)
    requires forall p {:trigger p in index} :: p in index <==> p == [] || p in merged || Below(merged, p)
    requires forall p {:trigger index[p]} :: p in index ==> index[p] == if p in merged then merged[p] else DEFAULT_DIR
    ensures ImageIndex(actions, index) && CleanKeys(index)
  {
    forall p ensures Below(merged, p) <==> HoldsBelow(actions, p) {
      if Below(merged, p) {
        var k :| k in merged && p < k;
        assert Find(actions, k).Some?;
      }
      if HoldsBelow(actions, p) {
        var k :| Find(actions, k).Some? && p < k;
        assert k in merged;
      }
    }
    forall p | p in index ensures Clean(p) {
      if p != [] && p !in merged {
        var k :| k in merged && p < k;
        assert Clean(k);
        assert forall i :: 0 <= i < |p| ==> p[i] == k[i];
      }
    }
  }

  /** The same said of the tar entries: an ancestor without a writer is a default directory. */
  ghost predicate IndexedFrom(items: seq<Item>, index: map<Path, Node>) {
    && (forall p {:trigger p in index} ::
          p in index <==> p == [] || Written(items, p) || exists q :: p < q && Written(items, q))
    && (forall p, i: nat {:trigger LastWriter(items, |items|, p, i)} ::
          LastWriter(items, |items|, p, i) ==> p in index && Made(items, i, index[p]))
    && (forall p {:trigger index[p]} :: p in index && !Written(items, p) ==> index[p] == DEFAULT_DIR)
  }

  /** What is written lies only below what directory entries wrote. */
  ghost predicate InnerDirEntries(items: seq<Item>) {
    forall p, q, i: nat {:trigger Written(items, p), LastWriter(items, |items|, q, i)} ::
      Written(items, p) && q != [] && q < p && LastWriter(items, |items|, q, i) ==> items[i].entry.typ.TypeDir?
  }

  lemma {:induction false} FoundOrWritten(items: seq<Item>, p: Path)
    requires Ordered(items) && Run(items, |items|).Some?
    ensures var f := Find(Run(items, |items|).value, p);
            && (Written(items, p) ==> f.Some?)
            && (p != [] && f.Some? ==> Written(items, p))
            && (f.Some? && !Written(items, p) ==> f.value == DEFAULT_DIR)
  {
    var f := Find(Run(items, |items|).value, p);
    if i: nat :| LastWriter(items, |items|, p, i) { WriterFound(items, p, i); }
    if f.Some? {
      FoundIsWritten(items, p);
      if !Written(items, p) { RootFound(items, p); }
    }
  }

  lemma {:induction false} IndexFromEntries(layers: seq<Layer>, index: map<Path, Node>)
    requires ImageActions(layers).Some? && ImageIndex(ImageActions(layers).value, index)
    ensures IndexedFrom(AllItems(layers), index)
  {
    var items, actions := AllItems(layers), ImageActions(layers).value;
    ImageRuns(layers);
    ImageOrdered(layers);
    forall p ensures p in index <==> p == [] || Written(items, p) || exists q :: p < q && Written(items, q) {
      FoundOrWritten(items, p);
      if HoldsBelow(actions, p) {
        var q :| Find(actions, q).Some? && p < q;
        FoundOrWritten(items, q);
      }
      if q :| p < q && Written(items, q) { FoundOrWritten(items, q); }
    }
    forall p, i: nat {:trigger LastWriter(items, |items|, p, i)} | LastWriter(items, |items|, p, i)
      ensures p in index && Made(items, i, index[p])
    {
      WriterFound(items, p, i);
    }
    forall p {:trigger index[p]} | p in index && !Written(items, p) ensures index[p] == DEFAULT_DIR {
      FoundOrWritten(items, p);
    }
  }

  lemma {:induction false} InnerDirsByEntries(layers: seq<Layer>)
    requires ImageActions(layers).Some?
    ensures InnerDirs(ImageActions(layers).value) <==> InnerDirEntries(AllItems(layers))
  {
    var items, actions := AllItems(layers), ImageActions(layers).value;
    ImageRuns(layers);
    ImageOrdered(layers);
    if InnerDirs(actions) {
      forall p, q, i: nat {:trigger Written(items, p), LastWriter(items, |items|, q, i)} |
        Written(items, p) && q != [] && q < p && LastWriter(items, |items|, q, i)
        ensures items[i].entry.typ.TypeDir?
      {
        FoundOrWritten(items, p);
        WriterFound(items, q, i);
      }
    }
    if InnerDirEntries(items) {
      forall p, q | Find(actions, p).Some? && q != [] && q < p && Find(actions, q).Some?
        ensures Find(actions, q).value.kind == Dir
      {
        FoundOrWritten(items, p);
        FoundOrWritten(items, q);
        var i: nat :| LastWriter(items, |items|, q, i);
        WriterFound(items, q, i);
      }
    }
  }

  /**
    The whole way from layers to a root directory: it succeeds exactly when no tar entry is an error and
    everything that survives lies below directories, and the tree then shows what survives and its ancestors.
   */
  method BuildImage(layers: seq<Layer>)
    returns (root: Option<IndexedDir>, ghost dirs: map<Path, IndexedDir>, ghost index: map<Path, Node>)
    requires forall i, j :: 0 <= i < |layers| && 0 <= j < |layers[i].entries| ==> CleanEntry(layers[i].entries[j])
    ensures root.Some? <==> ImageActions(layers).Some? && InnerDirs(ImageActions(layers).value)
    ensures root.Some? ==>
              ImageIndex(ImageActions(layers).value, index) && Represents(dirs, index) && root.value == dirs[[]]
    ensures var items := AllItems(layers);
            && (root.Some? <==> (forall i :: 0 <= i < |items| ==> Accepted(items, i)) && InnerDirEntries(items))
            && (root.Some? ==> IndexedFrom(items, index))
  {
    if ImageActions(layers).Some? { InnerDirsByEntries(layers); }
    var build := new BuildState();
    dirs, index := map[], map[];
    var ok := build.ApplyLayers(layers);
    if !ok {
      return None, dirs, index;
    }
    ghost var actions, merged := ImageActions(layers).value, build.merged;
    build.EnsureParents();
    index := build.merged;
    ClosedIsImage(actions, merged, index);
    IndexFromEntries(layers, index);
    var nodes := ListIndex(build.merged);
    ImageIsTreelike(actions, index);
    SortedIsOncePerPath(nodes);
    root, dirs := BuildRoot(nodes);
  }
}
