/** What the entries of an image's layers do to one index of paths. */
module OciActions {
  import opened Bytes
  import opened ByteStrings
  import opened Common
  import opened Paths

  datatype Kind = Dir | File | Symlink
  datatype Attrs = Attrs(uid: u32, gid: u32, mode: u32, rdev: u32, modTime: int)
  datatype Node = Node(kind: Kind, attrs: Attrs, size: nat, tarRef: Name, tarOffset: nat, link: Name)
  datatype Meta = Meta(uid: u32, gid: u32, mode: u32, rdev: u32, link: Name)

  const DIR_MODE: u32 := 0x41ed  // a directory with permissions 0755

  const DEFAULT_DIR := Node(Dir, Attrs(0, 0, DIR_MODE, 0, 0), 0, [], 0, [])

  function MetaOf(n: Node): Meta {
    Meta(n.attrs.uid, n.attrs.gid, n.attrs.mode, n.attrs.rdev, if n.kind == Symlink then n.link else [])
  }

  /** Owner, mode and device number are the node's own; only a symlink has a target. */
  predicate Tells(meta: Meta, n: Node) {
    && meta.uid == n.attrs.uid && meta.gid == n.attrs.gid && meta.mode == n.attrs.mode && meta.rdev == n.attrs.rdev
    && meta.link == if n.kind.Symlink? then n.link else []
  }

  /** The name of a tar entry after cleaning: the layer's own root, a name that is refused, or a path. */
  datatype EntryName = Ignored | Refused | Named(path: Path)

  datatype EntryType =
    | TypeDir | TypeReg | TypeDevice | TypeSymlink(linkname: Name) | TypeLink(to: EntryName)
    | TypeGlobalHeader | TypeOther

  datatype TarEntry = TarEntry(name: EntryName, typ: EntryType, attrs: Attrs, size: nat, offset: nat)
  datatype Layer = Layer(tarRef: Name, entries: seq<TarEntry>)

  const BACKSLASH: byte := 92
  const WHITEOUT: Name := [46, 119, 104, 46]                                 // .wh.
  const OPAQUE: Name := [46, 119, 104, 46, 46, 119, 104, 46, 46, 111, 112, 113]  // .wh..wh..opq

  /** path.Join of a directory with what follows the whiteout prefix. */
  function Resolve(dir: Path, name: Name): Path {
    if name == [] || name == [46] then dir
    else if name == [46, 46] then if dir == [] then [] else dir[..|dir| - 1]
    else dir + [name]
  }

  // ----- the meaning of a list of layers -----

  /** What one tar entry does to the index. */
  datatype Action = Put(path: Path, node: Node) | Remove(target: Path) | Clear(dir: Path) | Skip

  predicate Covers(a: Action, p: Path) {
    match a
    case Remove(t) => p == t || (t != [] && t < p)
    case Clear(d) => d != [] && d < p
    case _ => false
  }

  /** The node of the last entry naming `p` that no later whiteout covers. */
  function Find(actions: seq<Action>, p: Path): Option<Node> {
    if actions == [] then None
    else
      var a := actions[|actions| - 1];
      if a.Put? && a.path == p then Some(a.node)
      else if Covers(a, p) then None
      else Find(actions[..|actions| - 1], p)
  }

  /** The node of the last entry naming `p`, whiteouts or not. */
  function LastPut(actions: seq<Action>, p: Path): Option<Node> {
    if actions == [] then None
    else
      var a := actions[|actions| - 1];
      if a.Put? && a.path == p then Some(a.node) else LastPut(actions[..|actions| - 1], p)
  }

  predicate Settles(a: Action, p: Path) {
    (a.Put? && a.path == p) || Covers(a, p)
  }

  /** Entry `i` names `p` and nothing after it names or covers `p`. */
  ghost predicate Survives(actions: seq<Action>, p: Path, i: nat) {
    && i < |actions| && actions[i].Put? && actions[i].path == p
    && forall j {:trigger Settles(actions[j], p)} :: i < j < |actions| ==> !Settles(actions[j], p)
  }

  /** Find gives the node of a surviving entry. */
  lemma {:induction false} SurvivorIsFound(actions: seq<Action>, p: Path, i: nat)
    requires Survives(actions, p, i)
    ensures Find(actions, p) == Some(actions[i].node)
  {
    var n := |actions| - 1;
    if i < n {
      assert !Settles(actions[n], p);
      var before := actions[..n];
      forall j | i < j < n ensures !Settles(before[j], p) { assert !Settles(actions[j], p); }
      SurvivorIsFound(before, p, i);
    }
  }

  /** Find finds nothing unless some entry survives. */
  lemma {:induction false} FoundSurvives(actions: seq<Action>, p: Path) returns (i: nat)
    requires Find(actions, p).Some?
    ensures Survives(actions, p, i)
  {
    var n := |actions| - 1;
    if actions[n].Put? && actions[n].path == p {
      i := n;
    } else {
      var before := actions[..n];
      i := FoundSurvives(before, p);
      forall j | i < j < |actions| ensures !Settles(actions[j], p) {
        if j < n { assert !Settles(before[j], p); }
      }
    }
  }

  /** NormalizeSymlinkTarget: every backslash becomes a slash. */
  function LinkTarget(l: Name): (t: Name)
    ensures |t| == |l| && BACKSLASH !in t
    ensures forall i :: 0 <= i < |l| ==> t[i] == if l[i] == BACKSLASH then SLASH else l[i]
  {
    if l == [] then [] else LinkTarget(l[..|l| - 1]) + [if l[|l| - 1] == BACKSLASH then SLASH else l[|l| - 1]]
  }

  /** The action of an entry, given the node that its hard link target names; None for an error. */
  function ActionOf(e: TarEntry, tarRef: Name, linked: Option<Node>): Option<Action> {
    if e.name == Ignored then Some(Skip)
    else if e.name == Refused then None
    else
      var p := e.name.path;
      if p != [] && p[|p| - 1] == OPAQUE then Some(Clear(p[..|p| - 1]))
      else if p != [] && WHITEOUT <= p[|p| - 1] then Some(Remove(Resolve(p[..|p| - 1], p[|p| - 1][4..])))
      else
        match e.typ
        case TypeDir => Some(Put(p, Node(Dir, e.attrs, 0, [], 0, [])))
        case TypeReg => Some(Put(p, Node(File, e.attrs, e.size, tarRef, e.offset, [])))
        case TypeDevice => Some(Put(p, Node(File, e.attrs, 0, tarRef, e.offset, [])))
        case TypeSymlink(l) => Some(Put(p, Node(Symlink, e.attrs, |l|, [], 0, LinkTarget(l))))
        case TypeLink(to) =>
          if !to.Named? || linked.None? || linked.value.kind != File then None
          else Some(Put(p, Node(File, e.attrs, linked.value.size, linked.value.tarRef, linked.value.tarOffset, [])))
        case TypeGlobalHeader => Some(Skip)
        case TypeOther => None
  }

  /**
    What a hard link refers to: the last entry of this layer naming the target, even one that a
    whiteout of the layer has removed since, else the target in the index so far.
   */
  function Linked(before: seq<Action>, layer: seq<Action>, typ: EntryType): Option<Node> {
    if !typ.TypeLink? || !typ.to.Named? then None
    else if LastPut(layer, typ.to.path).Some? then LastPut(layer, typ.to.path)
    else Find(before + layer, typ.to.path)
  }

  function LayerActions(before: seq<Action>, tarRef: Name, es: seq<TarEntry>): Option<seq<Action>> {
    if es == [] then Some([])
    else
      var r, e := LayerActions(before, tarRef, es[..|es| - 1]), es[|es| - 1];
      if r.None? then None
      else
        var a := ActionOf(e, tarRef, Linked(before, r.value, e.typ));
        if a.None? then None else Some(r.value + [a.value])
  }

  /** The actions of a whole image, from an index that holds just the root. */
  function ImageActions(layers: seq<Layer>): Option<seq<Action>> {
    if layers == [] then Some([Put([], DEFAULT_DIR)])
    else
      var r, l := ImageActions(layers[..|layers| - 1]), layers[|layers| - 1];
      if r.None? then None
      else
        var a := LayerActions(r.value, l.tarRef, l.entries);
        if a.None? then None else Some(r.value + a.value)
  }

  predicate CleanEntry(e: TarEntry) {
    (e.name.Named? ==> Clean(e.name.path)) && (e.typ.TypeLink? && e.typ.to.Named? ==> Clean(e.typ.to.path))
  }

  predicate CleanAction(a: Action) {
    match a
    case Put(p, _) => Clean(p)
    case Remove(t) => Clean(t)
    case Clear(d) => Clean(d)
    case Skip => true
  }

  lemma {:induction false} ResolveIsClean(dir: Path, name: Name)
    requires Clean(dir) && SLASH !in name
    ensures Clean(Resolve(dir, name))
  {}

  lemma {:induction false} ActionIsClean(e: TarEntry, tarRef: Name, linked: Option<Node>)
    requires CleanEntry(e)
    ensures var a := ActionOf(e, tarRef, linked); a.Some? ==> CleanAction(a.value)
  {
    if e.name.Named? && e.name.path != [] {
      var p := e.name.path;
      var dir, base := p[..|p| - 1], p[|p| - 1];
      assert Clean(dir);
      if WHITEOUT <= base {
        assert forall c :: c in base[4..] ==> c in base;
        ResolveIsClean(dir, base[4..]);
      }
    }
  }

  // ----- indexes that show the actions -----

  ghost predicate Shows(m: map<Path, Node>, actions: seq<Action>) {
    forall p {:trigger p in m} {:trigger Find(actions, p)} ::
      (p in m <==> Find(actions, p).Some?) && (p in m ==> Find(actions, p) == Some(m[p]))
  }

  ghost predicate Recalls(m: map<Path, Node>, actions: seq<Action>) {
    forall p {:trigger p in m} {:trigger LastPut(actions, p)} ::
      (p in m <==> LastPut(actions, p).Some?) && (p in m ==> LastPut(actions, p) == Some(m[p]))
  }
}
