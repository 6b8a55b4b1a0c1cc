/** What an overlay of wrapper directories over a base tree shows, and what edits of a tree mean. */
module OverlayView {
  import opened Bytes
  import opened ByteStrings
  import opened Common
  import opened Paths

  datatype Leaf = File(mode: nat, rdev: nat, data: seq<byte>) | Symlink(target: Name)
  datatype Item = DirItem(mode: nat) | LeafItem(leaf: Leaf)

  /** A base tree, as the set of its paths; without a root there is no base. */
  type Base = map<Path, Item>

  predicate HasDir(base: Base, p: Path) { p in base && base[p].DirItem? }

  ghost predicate Treelike(base: Base) {
    forall p {:trigger p in base} :: p in base ==> if p == [] then base[p].DirItem? else HasDir(base, p[..|p| - 1])
  }

  function Fetch(base: Base, p: Path): Option<Item> {
    if p in base then Some(base[p]) else None
  }

  // ----- edits of a tree -----

  datatype Edit = MakeDir(path: Path, mode: nat) | MakeLeaf(path: Path, leaf: Leaf)

  const DIR_MODE := 0x1ed  // 0755

  /** The directory an edit needs, and the mode of the directories it makes on the way. */
  function Needed(e: Edit): Path
    requires e.MakeDir? || e.path != []
  {
    if e.MakeDir? then e.path else e.path[..|e.path| - 1]
  }

  function NewMode(e: Edit): nat { if e.MakeDir? then e.mode else DIR_MODE }

  /** The item at `q` after the edits, applied in order to the base. */
  function Seen(base: Base, edits: seq<Edit>, q: Path): Option<Item>
    decreases |edits|, 0
  {
    if edits == [] then if q == [] && [] !in base then Some(DirItem(DIR_MODE)) else Fetch(base, q)
    else
      var before, e := edits[..|edits| - 1], edits[|edits| - 1];
      if !Succeeds(base, before, e) then Seen(base, before, q)
      else if e.MakeLeaf? && e.path == q then Some(LeafItem(e.leaf))
      else if e.MakeLeaf? && e.path < q then None
      else if q <= Needed(e) && Seen(base, before, q).None? then Some(DirItem(NewMode(e)))
      else Seen(base, before, q)
  }

  /** An edit succeeds unless it would replace the root or a leaf lies on its way. */
  predicate Succeeds(base: Base, edits: seq<Edit>, e: Edit)
    decreases |edits|, |e.path| + 2
  {
    (e.MakeDir? || e.path != []) && Clear(base, edits, Needed(e), |Needed(e)|)
  }

  predicate IsLeaf(i: Option<Item>) { i.Some? && i.value.LeafItem? }

  /** No leaf at any of the first `n` directories of `p`. */
  predicate Clear(base: Base, edits: seq<Edit>, p: Path, n: nat)
    requires n <= |p|
    decreases |edits|, n + 1
  {
    n == 0 || (Clear(base, edits, p, n - 1) && !IsLeaf(Seen(base, edits, p[..n])))
  }

  // ----- the overlay -----

  datatype Slot = Sub | LeafSlot(leaf: Leaf)
  datatype DirView = DirView(based: bool, mode: nat, slots: map<Name, Slot>)
  type Heap = map<Path, DirView>

  function StatOf(base: Base, d: DirView, p: Path): Item {
    if d.based && HasDir(base, p) then base[p] else DirItem(d.mode)
  }

  /** The walk of a lookup of `q`, from its i-th directory on. */
  function Look(base: Base, h: Heap, q: Path, i: nat): Option<Item>
    requires i <= |q|
    decreases |q| - i
  {
    if q[..i] !in h then None
    else
      var d := h[q[..i]];
      if i == |q| then Some(StatOf(base, d, q))
      else if q[i] in d.slots then
        match d.slots[q[i]]
        case Sub => Look(base, h, q, i + 1)
        case LeafSlot(l) => if i + 1 == |q| then Some(LeafItem(l)) else None
      else if d.based then Fetch(base, q)
      else None
  }

  function View(base: Base, h: Heap, q: Path): Option<Item> { Look(base, h, q, 0) }

  /** The first `n` steps of `p` lead from wrapper to wrapper. */
  predicate Reached(h: Heap, p: Path, n: nat)
    requires n <= |p|
  {
    p[..n] in h && (n == 0 || (Reached(h, p, n - 1) && p[n - 1] in h[p[..n - 1]].slots &&
                               h[p[..n - 1]].slots[p[n - 1]] == Sub))
  }

  /** Wrappers are based exactly on base directories, and a based wrapper hides no other base. */
  ghost predicate Grounded(base: Base, h: Heap) {
    Treelike(base) && forall p :: p in h && h[p].based ==> HasDir(base, p)
  }

  lemma {:induction false} LookFrom(base: Base, h: Heap, p: Path, n: nat, q: Path)
    requires n <= |p| && n <= |q| && q[..n] == p[..n] && Reached(h, p, n)
    ensures View(base, h, q) == Look(base, h, q, n)
  {
    if n > 0 {
      assert q[..n - 1] == q[..n][..n - 1] && p[..n - 1] == p[..n][..n - 1];
      assert q[n - 1] == q[..n][n - 1] == p[n - 1];
      LookFrom(base, h, p, n - 1, q);
    }
  }

  lemma {:induction false} BaseClosed(base: Base, q: Path, j: nat)
    requires Treelike(base) && q in base && j < |q|
    ensures HasDir(base, q[..j])
    decreases |q| - j
  {
    if j + 1 == |q| {
      assert HasDir(base, q[..|q| - 1]);
    } else {
      BaseClosed(base, q, j + 1);
      assert q[..j + 1][..j] == q[..j];
    }
  }

  /** What is visible lies in visible directories. */
  lemma {:induction false} ViewClosed(base: Base, h: Heap, q: Path, i: nat, j: nat)
    requires Grounded(base, h) && i <= j < |q| && Look(base, h, q, i).Some?
    ensures var r := Look(base, h, q[..j], i); r.Some? && r.value.DirItem?
    decreases |q| - i
  {
    var r := q[..j];
    assert r[..i] == q[..i];
    if i < j {
      assert r[i] == q[i];
      if q[i] in h[q[..i]].slots {
        if i + 1 < |q| && h[q[..i]].slots[q[i]] == Sub { ViewClosed(base, h, q, i + 1, j); }
      } else {
        BaseClosed(base, q, j);
      }
    } else {
      assert r == q[..i];
    }
  }

  /** A change below one slot shows nowhere else. */
  lemma {:induction false} ElsewhereSame(base: Base, h: Heap, h': Heap, c: Path, q: Path, i: nat)
    requires c != [] && !(c <= q) && i <= |q|
    requires forall p :: p !in {c, c[..|c| - 1]} ==> (p in h <==> p in h') && (p in h ==> h'[p] == h[p])
    requires c[..|c| - 1] in h && c[..|c| - 1] in h'
    requires var d, d', name := h[c[..|c| - 1]], h'[c[..|c| - 1]], c[|c| - 1];
             d.based == d'.based && d.mode == d'.mode && d.slots - {name} == d'.slots - {name}
    ensures Look(base, h', q, i) == Look(base, h, q, i)
    decreases |q| - i
  {
    var a, name := c[..|c| - 1], c[|c| - 1];
    assert q[..i] != c;
    if i < |q| {
      ElsewhereSame(base, h, h', c, q, i + 1);
      if q[..i] == a {
        assert c == a + [name] && q[..i + 1] == a + [q[i]];
        assert q[i] != name;
        var d, d' := h[a], h'[a];
        assert q[i] in d.slots <==> q[i] in (d.slots - {name});
        assert q[i] in d'.slots <==> q[i] in (d'.slots - {name});
        assert q[i] in d.slots ==> d.slots[q[i]] == (d.slots - {name})[q[i]];
        assert q[i] in d'.slots ==> d'.slots[q[i]] == (d'.slots - {name})[q[i]];
      }
    }
  }

  lemma {:induction false} SlotsElsewhere(slots: map<Name, Slot>, name: Name, s: Slot)
    ensures slots[name := s] - {name} == slots - {name}
  {}

  lemma {:induction false} ReachedPrefix(h: Heap, h': Heap, p: Path, i: nat, n: nat)
    requires n <= i < |p| && Reached(h, p, n) && p[..i] in h'
    requires forall q :: q in h && q !in {p[..i], p[..i + 1]} ==> q in h' && h'[q] == h[q]
    ensures Reached(h', p, n)
  {
    if n > 0 {
      ReachedPrefix(h, h', p, i, n - 1);
      assert |p[..n - 1]| == n - 1;
    }
    if n < i { assert |p[..n]| == n; }
  }

  lemma {:induction false} ReachedKept(h: Heap, h': Heap, p: Path, i: nat)
    requires i < |p| && Reached(h, p, i)
    requires p[..i] in h' && p[..i + 1] in h' && p[i] in h'[p[..i]].slots && h'[p[..i]].slots[p[i]] == Sub
    requires forall q :: q in h && q !in {p[..i], p[..i + 1]} ==> q in h' && h'[q] == h[q]
    ensures Reached(h', p, i + 1)
  {
    ReachedPrefix(h, h', p, i, i);
  }

  /** A wrapper put where no slot was shows what was there before, or else one new empty directory. */
  lemma {:induction false} WrapShows(base: Base, h: Heap, h': Heap, p: Path, i: nat, mode: nat, q: Path)
    requires Grounded(base, h) && i < |p| && Reached(h, p, i) && p[i] !in h[p[..i]].slots
    requires !IsLeaf(View(base, h, p[..i + 1]))
    requires var based := h[p[..i]].based && p[..i + 1] in base;
             h' == h[p[..i] := h[p[..i]].(slots := h[p[..i]].slots[p[i] := Sub])]
                    [p[..i + 1] := DirView(based, mode, map[])]
    ensures View(base, h', q) ==
            if q == p[..i + 1] && View(base, h, q).None? then Some(DirItem(mode)) else View(base, h, q)
    ensures Grounded(base, h') && Reached(h', p, i + 1)
  {
    var a, c := p[..i], p[..i + 1];
    assert c[..|c| - 1] == a && c[|c| - 1] == p[i];
    ReachedKept(h, h', p, i);
    assert c[..i] == a;
    LookFrom(base, h, p, i, c);
    if c <= q {
      assert q[..i] == a && q[..i + 1] == c && q[i] == p[i];
      LookFrom(base, h, p, i, q);
      LookFrom(base, h', p, i + 1, q);
      if |q| == i + 1 {
        assert q == c;
      } else if q in base {
        BaseClosed(base, q, i + 1);
      }
    } else {
      SlotsElsewhere(h[a].slots, p[i], Sub);
      ElsewhereSame(base, h, h', c, q, 0);
    }
  }

  /** A leaf put into a slot shows there and hides everything below it. */
  lemma {:induction false} LeafShows(base: Base, h: Heap, h': Heap, p: Path, leaf: Leaf, q: Path)
    requires Grounded(base, h) && p != [] && Reached(h, p, |p| - 1)
    requires var a := p[..|p| - 1];
             h' == h[a := h[a].(slots := h[a].slots[p[|p| - 1] := LeafSlot(leaf)])]
    ensures View(base, h', q) == if q == p then Some(LeafItem(leaf)) else if p < q then None else View(base, h, q)
    ensures Grounded(base, h')
  {
    var n := |p| - 1;
    var a := p[..n];
    if p <= q {
      assert q[..n] == a && q[n] == p[n];
      ReachedPrefix(h, h', p, n, n);
      LookFrom(base, h', p, n, q);
    } else {
      SlotsElsewhere(h[a].slots, p[n], LeafSlot(leaf));
      ElsewhereSame(base, h, h', p, q, 0);
    }
  }
}

/** The overlay's wrapper directories on the heap. */
module OverlayFs {
  import opened Bytes
  import opened ByteStrings
  import opened Common
  import opened OverlayView
  import opened Paths

  datatype Override = DirEntry(dir: OverlayDir) | LeafEntry(leaf: Leaf)

  class OverlayDir {
    const base: Option<Path>  // the base directory that shines through, by its path
    const mode: nat
    var overrides: map<Name, Override>
    ghost const at: Path      // where the overlay shows it

    constructor (base: Option<Path>, mode: nat, ghost at: Path)
      ensures this.base == base && this.mode == mode && overrides == map[] && this.at == at
    {
      this.base, this.mode, overrides, this.at := base, mode, map[], at;
    }
  }

  function SlotOf(e: Override): Slot {
    match e
    case DirEntry(_) => Sub
    case LeafEntry(l) => LeafSlot(l)
  }

  function Slots(m: map<Name, Override>): map<Name, Slot> {
    map n | n in m :: SlotOf(m[n])
  }

  lemma {:induction false} SlotsUpdate(m: map<Name, Override>, n: Name, e: Override)
    ensures Slots(m[n := e]) == Slots(m)[n := SlotOf(e)]
  {}

  // ----- progress of ensureDir -----

  /** The tree with missing directories added down to the n-th directory of `p`. */
  function Grown(base: Base, es: seq<Edit>, p: Path, n: nat, mode: nat, q: Path): Option<Item>
    requires n <= |p|
  {
    if q <= p[..n] && Seen(base, es, q).None? then Some(DirItem(mode)) else Seen(base, es, q)
  }

  ghost predicate Shows(base: Base, h: Heap, es: seq<Edit>) {
    forall q {:trigger View(base, h, q)} {:trigger Seen(base, es, q)} :: View(base, h, q) == Seen(base, es, q)
  }

  ghost predicate ShowsGrown(base: Base, h: Heap, es: seq<Edit>, p: Path, n: nat, mode: nat)
    requires n <= |p|
  {
    forall q {:trigger View(base, h, q)} :: View(base, h, q) == Grown(base, es, p, n, mode, q)
  }

  ghost predicate Progress(base: Base, es: seq<Edit>, h0: Heap, h: Heap, p: Path, i: nat, mode: nat)
    requires i <= |p|
  {
    && Grounded(base, h0) && Shows(base, h0, es)
    && Grounded(base, h) && ShowsGrown(base, h, es, p, i, mode)
    && Reached(h, p, i) && Clear(base, es, p, i)
  }

  lemma {:induction false} Begin(base: Base, es: seq<Edit>, h: Heap, p: Path, mode: nat)
    requires Grounded(base, h) && Shows(base, h, es) && [] in h
    ensures Progress(base, es, h, h, p, 0, mode)
  {
    assert View(base, h, []).Some?;
  }

  /** What the walk finds at its next component. */
  lemma {:induction false} NextItem(base: Base, h: Heap, p: Path, i: nat)
    requires i < |p| && Reached(h, p, i)
    ensures var d, c := h[p[..i]], p[..i + 1];
            View(base, h, c) ==
            if p[i] !in d.slots then if d.based then Fetch(base, c) else None
            else if d.slots[p[i]].LeafSlot? then Some(LeafItem(d.slots[p[i]].leaf))
            else if c in h then Some(StatOf(base, h[c], c)) else None
  {
    var c := p[..i + 1];
    assert c[..i] == p[..i] && c[i] == p[i] && c[..i + 1] == c;
    LookFrom(base, h, p, i, c);
  }

  /** A prefix of the path one longer is a prefix already or the new directory itself. */
  lemma {:induction false} NextPrefix(p: Path, i: nat, q: Path)
    requires i < |p|
    ensures q <= p[..i + 1] <==> q <= p[..i] || q == p[..i + 1]
    ensures !(p[..i + 1] <= p[..i])
  {
    if q <= p[..i + 1] && |q| <= i { assert p[..i + 1][..|q|] == p[..i][..|q|]; }
    if q <= p[..i] { assert p[..i] == p[..i + 1][..i]; }
  }

  lemma {:induction false} StepInto(base: Base, es: seq<Edit>, h0: Heap, h: Heap, p: Path, i: nat, mode: nat)
    requires i < |p| && Progress(base, es, h0, h, p, i, mode)
    requires p[i] in h[p[..i]].slots && h[p[..i]].slots[p[i]] == Sub && p[..i + 1] in h
    ensures Progress(base, es, h0, h, p, i + 1, mode)
  {
    NextItem(base, h, p, i);
    NextPrefix(p, i, p[..i + 1]);
    forall q {:trigger View(base, h, q)} ensures View(base, h, q) == Grown(base, es, p, i + 1, mode, q) {
      NextPrefix(p, i, q);
    }
  }

  lemma {:induction false} StepWrap(base: Base, es: seq<Edit>, h0: Heap, h: Heap, h': Heap, p: Path, i: nat, mode: nat)
    requires i < |p| && Progress(base, es, h0, h, p, i, mode) && p[i] !in h[p[..i]].slots
    requires h[p[..i]].based ==> !IsLeaf(Fetch(base, p[..i + 1]))
    requires var based := h[p[..i]].based && p[..i + 1] in base;
             h' == h[p[..i] := h[p[..i]].(slots := h[p[..i]].slots[p[i] := Sub])]
                    [p[..i + 1] := DirView(based, mode, map[])]
    ensures Progress(base, es, h0, h', p, i + 1, mode)
  {
    NextItem(base, h, p, i);
    NextPrefix(p, i, p[..i + 1]);
    forall q {:trigger View(base, h', q)} ensures View(base, h', q) == Grown(base, es, p, i + 1, mode, q) {
      NextPrefix(p, i, q);
      WrapShows(base, h, h', p, i, mode, q);
    }
    WrapShows(base, h, h', p, i, mode, []);
  }

  lemma {:induction false} ClearPrefix(base: Base, es: seq<Edit>, p: Path, m: nat, n: nat)
    requires m <= n <= |p| && !Clear(base, es, p, m)
    ensures !Clear(base, es, p, n)
  {
    if m < n { ClearPrefix(base, es, p, m, n - 1); }
  }

  /** A leaf on the way: the call fails, and the wrappers made so far have changed nothing. */
  lemma {:induction false} StepFails(base: Base, es: seq<Edit>, h0: Heap, h: Heap, p: Path, i: nat, mode: nat)
    requires i < |p| && Progress(base, es, h0, h, p, i, mode)
    requires var d := h[p[..i]];
             if p[i] in d.slots then d.slots[p[i]].LeafSlot? else d.based && IsLeaf(Fetch(base, p[..i + 1]))
    ensures Shows(base, h, es) && !Clear(base, es, p, |p|)
  {
    NextItem(base, h, p, i);
    NextPrefix(p, i, p[..i + 1]);
    var c := p[..i + 1];
    assert View(base, h0, c) == Seen(base, es, c);
    forall q {:trigger View(base, h, q)} ensures View(base, h, q) == Seen(base, es, q) {
      if q <= p[..i] {
        assert q == c[..|q|];
        ViewClosed(base, h0, c, 0, |q|);
        assert View(base, h0, q) == Seen(base, es, q);
      }
    }
    ClearPrefix(base, es, p, i + 1, |p|);
  }

  // ----- the overlay object -----

  ghost function ViewOf(base: Option<Path>, mode: nat, overrides: map<Name, Override>): DirView {
    DirView(base.Some?, mode, Slots(overrides))
  }

  ghost predicate LinkedAt(dirs: map<Path, OverlayDir>, overrides: map<Name, Override>, p: Path) {
    forall n {:trigger overrides[n]} :: n in overrides && overrides[n].DirEntry? ==>
      p + [n] in dirs && dirs[p + [n]] == overrides[n].dir
  }

  /** A wrapper at `p` with these fields is the one the view has, and its entries lead to their wrappers. */
  ghost predicate Fits(dirs: map<Path, OverlayDir>, view: Heap, base: Option<Path>, mode: nat,
                       overrides: map<Name, Override>, p: Path) {
    && p in view && view[p] == ViewOf(base, mode, overrides)
    && (base.Some? ==> base.value == p) && LinkedAt(dirs, overrides, p)
  }

  /** There is one wrapper object per path of the view. */
  ghost predicate Mirrors(dirs: map<Path, OverlayDir>, view: Heap)
    reads dirs.Values
  {
    && [] in dirs && dirs.Keys == view.Keys
    && forall p {:trigger dirs[p]} :: p in dirs ==>
         dirs[p].at == p && Fits(dirs, view, dirs[p].base, dirs[p].mode, dirs[p].overrides, p)
  }

  lemma {:induction false} SameLast(q: Path, n: Name, p: Path, name: Name)
    requires q + [n] == p + [name]
    ensures q == p && n == name
  {
    assert (q + [n])[..|q|] == q && (p + [name])[..|p|] == p;
    assert (q + [n])[|q|] == n;
  }

  /** What a change of one wrapper, or a new wrapper in a new slot of it, leaves as it was. */
  lemma {:induction false} FitsStill(dirs: map<Path, OverlayDir>, dirs': map<Path, OverlayDir>, view: Heap, view': Heap,
                                     base: Option<Path>, mode: nat, overrides: map<Name, Override>, q: Path, p: Path,
                                     name: Name)
    requires Fits(dirs, view, base, mode, overrides, q) && q != p && q != p + [name]
    requires forall r :: r in dirs && r != p + [name] ==> r in dirs' && dirs'[r] == dirs[r]
    requires q in view' && view'[q] == view[q]
    ensures Fits(dirs', view', base, mode, overrides, q)
  {
    forall n | n in overrides && overrides[n].DirEntry? ensures q + [n] in dirs' && dirs'[q + [n]] == overrides[n].dir {
      if q + [n] == p + [name] { SameLast(q, n, p, name); }
    }
  }

  lemma {:induction false} FitsWithEntry(dirs: map<Path, OverlayDir>, dirs': map<Path, OverlayDir>, view: Heap,
                                         view': Heap, base: Option<Path>, mode: nat, overrides: map<Name, Override>,
                                         p: Path, name: Name, e: Override)
    requires Fits(dirs, view, base, mode, overrides, p)
    requires forall r :: r in dirs && r != p + [name] ==> r in dirs' && dirs'[r] == dirs[r]
    requires p in view' && view'[p] == view[p].(slots := view[p].slots[name := SlotOf(e)])
    requires e.DirEntry? ==> p + [name] in dirs' && dirs'[p + [name]] == e.dir
    ensures Fits(dirs', view', base, mode, overrides[name := e], p)
  {
    SlotsUpdate(overrides, name, e);
    var overrides' := overrides[name := e];
    forall n | n in overrides' && overrides'[n].DirEntry?
      ensures p + [n] in dirs' && dirs'[p + [n]] == overrides'[n].dir
    {
      if n != name && p + [n] == p + [name] { SameLast(p, n, p, name); }
    }
  }

  /** A new wrapper in an empty slot. */
  method Wrap(ghost dirs: map<Path, OverlayDir>, ghost view: Heap, ghost p: Path, parent: OverlayDir, name: Name,
              ghost c: Path, b: Option<Path>, mode: nat)
    returns (next: OverlayDir, ghost dirs': map<Path, OverlayDir>, ghost view': Heap)
    requires Mirrors(dirs, view) && p in dirs && parent == dirs[p] && c == p + [name] && name !in parent.overrides
    requires b.Some? ==> b.value == c
    modifies parent
    ensures Mirrors(dirs', view') && fresh(next) && dirs' == dirs[c := next]
    ensures view' == view[p := view[p].(slots := view[p].slots[name := Sub])][c := DirView(b.Some?, mode, map[])]
  {
    next := new OverlayDir(b, mode, c);
    dirs' := dirs[c := next];
    view' := view[p := view[p].(slots := view[p].slots[name := Sub])][c := DirView(b.Some?, mode, map[])];
    assert |c| != |p| && |c| != 0;
    assert Slots(map[]) == map[];
    FitsWithEntry(dirs, dirs', view, view', parent.base, parent.mode, parent.overrides, p, name, DirEntry(next));
    forall q | q in dirs && q != p && q != c
      ensures Fits(dirs', view', dirs[q].base, dirs[q].mode, dirs[q].overrides, q)
    {
      FitsStill(dirs, dirs', view, view', dirs[q].base, dirs[q].mode, dirs[q].overrides, q, p, name);
    }
    parent.overrides := parent.overrides[name := DirEntry(next)];
  }

  lemma {:induction false} FitsElsewhere(dirs: map<Path, OverlayDir>, view: Heap, view': Heap, base: Option<Path>,
                                         mode: nat, overrides: map<Name, Override>, q: Path, p: Path)
    requires Fits(dirs, view, base, mode, overrides, q) && q in view' && view'[q] == view[q]
    ensures Fits(dirs, view', base, mode, overrides, q)
  {}

  /** A leaf in a slot, in place of whatever was there. */
  method PutLeaf(ghost dirs: map<Path, OverlayDir>, ghost view: Heap, ghost p: Path, parent: OverlayDir, name: Name,
                 leaf: Leaf) returns (ghost view': Heap)
    requires Mirrors(dirs, view) && p in dirs && parent == dirs[p]
    modifies parent
    ensures Mirrors(dirs, view')
    ensures view' == view[p := view[p].(slots := view[p].slots[name := LeafSlot(leaf)])]
  {
    view' := view[p := view[p].(slots := view[p].slots[name := LeafSlot(leaf)])];
    FitsWithEntry(dirs, dirs, view, view', parent.base, parent.mode, parent.overrides, p, name, LeafEntry(leaf));
    forall q | q in dirs && q != p ensures Fits(dirs, view', dirs[q].base, dirs[q].mode, dirs[q].overrides, q) {
      FitsElsewhere(dirs, view, view', dirs[q].base, dirs[q].mode, dirs[q].overrides, q, p);
    }
    parent.overrides := parent.overrides[name := LeafEntry(leaf)];
  }

  /** One component of ensureDir: into a wrapper, past a base directory, or to something new. */
  method Descend(base: Base, p: Path, i: nat, current: OverlayDir, mode: nat, ghost es: seq<Edit>, ghost h0: Heap,
                 ghost dirs: map<Path, OverlayDir>, ghost view: Heap)
    returns (next: Option<OverlayDir>, ghost dirs': map<Path, OverlayDir>, ghost view': Heap)
    requires i < |p| && Mirrors(dirs, view) && Progress(base, es, h0, view, p, i, mode) && current == dirs[p[..i]]
    modifies current
    ensures Mirrors(dirs', view') && dirs'[[]] == dirs[[]] && Grounded(base, view')
    ensures dirs'.Values <= dirs.Values + (if next.Some? then {next.value} else {})
    ensures next.Some? && next.value !in dirs.Values ==> fresh(next.value)
    ensures next.None? ==> Shows(base, view', es) && !Clear(base, es, p, |p|)
    ensures next.Some? ==> Progress(base, es, h0, view', p, i + 1, mode)
    ensures next.Some? ==> p[..i + 1] in dirs' && dirs'[p[..i + 1]] == next.value
  {
    next, dirs', view' := None, dirs, view;
    var name := p[i];
    ghost var at, c := p[..i], p[..i + 1];
    assert c == at + [name];
    assert Fits(dirs, view, current.base, current.mode, current.overrides, at);
    if name in current.overrides {
      if current.overrides[name].LeafEntry? {
        StepFails(base, es, h0, view, p, i, mode);
        return;
      }
      next := Some(current.overrides[name].dir);
      StepInto(base, es, h0, view, p, i, mode);
      return;
    }
    var baseDir := None;
    if current.base.Some? {
      var found := Fetch(base, current.base.value + [name]);
      if IsLeaf(found) {
        StepFails(base, es, h0, view, p, i, mode);
        return;
      }
      if found.Some? {
        baseDir := Some(current.base.value + [name]);
      }
    }
    ghost var v := view;
    var d;
    d, dirs', view' := Wrap(dirs, view, at, current, name, c, baseDir, mode);
    StepWrap(base, es, h0, v, view', p, i, mode);
    next := Some(d);
  }

  lemma {:induction false} SeenNext(base: Base, es: seq<Edit>, e: Edit, q: Path)
    ensures Seen(base, es + [e], q) ==
            if !Succeeds(base, es, e) then Seen(base, es, q)
            else if e.MakeLeaf? && e.path == q then Some(LeafItem(e.leaf))
            else if e.MakeLeaf? && e.path < q then None
            else if q <= Needed(e) && Seen(base, es, q).None? then Some(DirItem(NewMode(e)))
            else Seen(base, es, q)
  {
    assert (es + [e])[..|es|] == es;
  }

  /** A failed edit changes nothing. */
  lemma {:induction false} Refused(base: Base, h: Heap, es: seq<Edit>, e: Edit)
    requires Shows(base, h, es) && !Succeeds(base, es, e)
    ensures Shows(base, h, es + [e])
  {
    forall q {:trigger View(base, h, q)} ensures View(base, h, q) == Seen(base, es + [e], q) {
      SeenNext(base, es, e, q);
    }
  }

  lemma {:induction false} DirMade(base: Base, h: Heap, es: seq<Edit>, p: Path, mode: nat)
    requires ShowsGrown(base, h, es, p, |p|, mode) && Clear(base, es, p, |p|)
    ensures Shows(base, h, es + [MakeDir(p, mode)])
  {
    assert p[..|p|] == p;
    forall q {:trigger View(base, h, q)} ensures View(base, h, q) == Seen(base, es + [MakeDir(p, mode)], q) {
      SeenNext(base, es, MakeDir(p, mode), q);
    }
  }

  lemma {:induction false} ReachedOf(h: Heap, a: Path, p: Path, n: nat)
    requires n <= |a| <= |p| && a == p[..|a|] && Reached(h, a, n)
    ensures Reached(h, p, n)
  {
    assert a[..n] == p[..n];
    if n > 0 {
      assert a[..n - 1] == p[..n - 1] && a[n - 1] == p[n - 1];
      ReachedOf(h, a, p, n - 1);
    }
  }

  lemma {:induction false} LeafMade(base: Base, h: Heap, h': Heap, es: seq<Edit>, p: Path, a: Path, leaf: Leaf)
    requires p != [] && a == p[..|p| - 1] && Grounded(base, h) && Reached(h, a, |a|) && Clear(base, es, a, |a|)
    requires ShowsGrown(base, h, es, a, |a|, DIR_MODE)
    requires a[..|a|] == a && h' == h[a := h[a].(slots := h[a].slots[p[|p| - 1] := LeafSlot(leaf)])]
    ensures Grounded(base, h') && Shows(base, h', es + [MakeLeaf(p, leaf)])
  {
    assert a[..|a|] == a;
    ReachedOf(h, a, p, |a|);
    forall q {:trigger View(base, h', q)} ensures View(base, h', q) == Seen(base, es + [MakeLeaf(p, leaf)], q) {
      SeenNext(base, es, MakeLeaf(p, leaf), q);
      LeafShows(base, h, h', p, leaf, q);
    }
    LeafShows(base, h, h', p, leaf, p);
  }

  /** The wrappers show the base with the edits applied. */
  ghost predicate Current(base: Base, root: OverlayDir, dirs: map<Path, OverlayDir>, view: Heap, es: seq<Edit>)
    reads dirs.Values
  {
    Mirrors(dirs, view) && dirs[[]] == root && Grounded(base, view) && Shows(base, view, es)
  }

  /** ensureDir */
  method EnsureDir(base: Base, root: OverlayDir, p: Path, mode: nat, ghost es: seq<Edit>,
                   ghost dirs: map<Path, OverlayDir>, ghost view: Heap)
    returns (d: Option<OverlayDir>, ghost dirs': map<Path, OverlayDir>, ghost view': Heap)
    requires Current(base, root, dirs, view, es)
    modifies dirs.Values
    ensures Mirrors(dirs', view') && dirs'[[]] == root && fresh(dirs'.Values - dirs.Values)
    ensures d.None? ==> !Clear(base, es, p, |p|) && Grounded(base, view') && Shows(base, view', es)
    ensures d.Some? ==> Progress(base, es, view, view', p, |p|, mode) && p in dirs' && dirs'[p] == d.value
  {
    var current := root;
    dirs', view' := dirs, view;
    Begin(base, es, view, p, mode);
    assert p[..0] == [];
    for i := 0 to |p|
      invariant Mirrors(dirs', view') && Progress(base, es, view, view', p, i, mode) && dirs'[[]] == root
      invariant p[..i] in dirs' && current == dirs'[p[..i]] && fresh(dirs'.Values - dirs.Values)
    {
      var next;
      next, dirs', view' := Descend(base, p, i, current, mode, es, view, dirs', view');
      if next.None? {
        return None, dirs', view';
      }
      current := next.value;
    }
    assert p[..|p|] == p;
    d := Some(current);
  }

  method MakeDirAt(base: Base, root: OverlayDir, p: Path, mode: nat, ghost es: seq<Edit>,
                   ghost dirs: map<Path, OverlayDir>, ghost view: Heap)
    returns (ok: bool, ghost dirs': map<Path, OverlayDir>, ghost view': Heap)
    requires Current(base, root, dirs, view, es)
    modifies dirs.Values
    ensures Current(base, root, dirs', view', es + [MakeDir(p, mode)]) && fresh(dirs'.Values - dirs.Values)
    ensures ok <==> Succeeds(base, es, MakeDir(p, mode))
  {
    var d;
    d, dirs', view' := EnsureDir(base, root, p, mode, es, dirs, view);
    ok := d.Some?;
    if ok {
      DirMade(base, view', es, p, mode);
    } else {
      Refused(base, view', es, MakeDir(p, mode));
    }
  }

  method MakeLeafAt(base: Base, root: OverlayDir, p: Path, leaf: Leaf, ghost es: seq<Edit>,
                    ghost dirs: map<Path, OverlayDir>, ghost view: Heap)
    returns (ok: bool, ghost dirs': map<Path, OverlayDir>, ghost view': Heap)
    requires Current(base, root, dirs, view, es)
    modifies dirs.Values
    ensures Current(base, root, dirs', view', es + [MakeLeaf(p, leaf)]) && fresh(dirs'.Values - dirs.Values)
    ensures ok <==> Succeeds(base, es, MakeLeaf(p, leaf))
  {
    dirs', view' := dirs, view;
    if p == [] {
      Refused(base, view, es, MakeLeaf(p, leaf));
      return false, dirs', view';
    }
    var a := p[..|p| - 1];
    var d;
    d, dirs', view' := EnsureDir(base, root, a, DIR_MODE, es, dirs, view);
    if d.None? {
      Refused(base, view', es, MakeLeaf(p, leaf));
      return false, dirs', view';
    }
    ghost var v := view';
    assert a[..|a|] == a;
    view' := PutLeaf(dirs', v, a, d.value, p[|p| - 1], leaf);
    LeafMade(base, v, view', es, p, a, leaf);
    ok := true;
  }

  // ----- lookups -----

  /** A directory as the lookups see it: a wrapper, or a directory of the base. */
  datatype Handle = Over(dir: OverlayDir) | InBase(path: Path)
  datatype Found = FoundDir(handle: Handle) | FoundLeaf(leaf: Leaf)

  function FoundOf(e: Override): Found {
    match e
    case DirEntry(d) => FoundDir(Over(d))
    case LeafEntry(l) => FoundLeaf(l)
  }

  function BaseLookup(base: Base, p: Path): Option<Found> {
    if p !in base then None
    else match base[p] { case DirItem(_) => Some(FoundDir(InBase(p))) case LeafItem(l) => Some(FoundLeaf(l)) }
  }

  /** LookupContext of a wrapper with this base and these overrides. */
  function LookupOver(base: Base, b: Option<Path>, overrides: map<Name, Override>, name: Name): Option<Found> {
    if name in overrides then Some(FoundOf(overrides[name]))
    else if b.None? then None
    else BaseLookup(base, b.value + [name])
  }

  /** Lookup on either kind of directory. */
  function LookupIn(base: Base, h: Handle, name: Name): Option<Found>
    reads if h.Over? then {h.dir} else {}
  {
    match h
    case InBase(p) => BaseLookup(base, p + [name])
    case Over(d) => LookupOver(base, d.base, d.overrides, name)
  }

  /** Kind, mode and content of what a lookup found. */
  function ItemOf(base: Base, f: Found): Item {
    match f
    case FoundLeaf(l) => LeafItem(l)
    case FoundDir(InBase(p)) => if HasDir(base, p) then base[p] else DirItem(0)
    case FoundDir(Over(d)) => if d.base.Some? && HasDir(base, d.base.value) then base[d.base.value] else DirItem(d.mode)
  }

  /** What the next component settles about a lookup. */
  lemma {:induction false} ViewStep(base: Base, view: Heap, p: Path, i: nat, c: Path)
    requires i < |p| && c == p[..i + 1] && Grounded(base, view) && Reached(view, p, i)
    ensures var d := view[p[..i]];
            if p[i] in d.slots then
              if d.slots[p[i]].LeafSlot? then
                View(base, view, p) == if i + 1 == |p| then Some(LeafItem(d.slots[p[i]].leaf)) else None
              else
                c in view ==>
                  Reached(view, p, i + 1) && (i + 1 == |p| ==> View(base, view, p) == Some(StatOf(base, view[c], c)))
            else
              && View(base, view, p) == (if d.based then Fetch(base, p) else None)
              && (p in base && i + 1 < |p| ==> HasDir(base, c))
    ensures i + 1 == |p| ==> c == p
  {
    LookFrom(base, view, p, i, p);
    if i + 1 == |p| { assert c == p; }
    if p[i] in view[p[..i]].slots {
      if view[p[..i]].slots[p[i]] == Sub && c in view { LookFrom(base, view, p, i + 1, p); }
    } else if p in base && i + 1 < |p| {
      BaseClosed(base, p, i + 1);
    }
  }

  /** One component of a lookup that is still among wrappers. */
  lemma {:induction false} OverlayStep(base: Base, dirs: map<Path, OverlayDir>, view: Heap, b: Option<Path>, mode: nat,
                                       overrides: map<Name, Override>, p: Path, i: nat, c: Path)
    requires i < |p| && c == p[..i + 1] && Fits(dirs, view, b, mode, overrides, p[..i])
    requires Grounded(base, view) && Reached(view, p, i)
    requires c in dirs ==> c in view && StatOf(base, view[c], c) == ItemOf(base, FoundDir(Over(dirs[c])))
    ensures var r, seen := LookupOver(base, b, overrides, p[i]), View(base, view, p);
            && (r.None? ==> seen.None?)
            && (r.Some? && r.value.FoundLeaf? ==> seen == if i + 1 == |p| then Some(LeafItem(r.value.leaf)) else None)
            && (r.Some? && r.value.FoundDir? && r.value.handle.InBase? ==>
                  r.value.handle.path == c && seen == Fetch(base, p) && HasDir(base, c))
            && (r.Some? && r.value.FoundDir? && r.value.handle.Over? ==>
                  && Reached(view, p, i + 1) && c in dirs && r.value.handle.dir == dirs[c]
                  && (i + 1 == |p| ==> seen == Some(ItemOf(base, r.value))))
  {
    assert p[..i] + [p[i]] == c;
    ViewStep(base, view, p, i, c);
  }

  /** The lookup of `p` has come to its i-th directory, a wrapper or one of the base. */
  ghost predicate Reaches(base: Base, dirs: map<Path, OverlayDir>, view: Heap, h: Handle, p: Path, i: nat)
    requires i <= |p|
  {
    match h
    case Over(d) => Reached(view, p, i) && p[..i] in dirs && d == dirs[p[..i]]
    case InBase(b) => b == p[..i] && View(base, view, p) == Fetch(base, p)
  }

  /** One turn of LookupPath's loop. */
  method FindNext(base: Base, h: Handle, p: Path, i: nat, ghost dirs: map<Path, OverlayDir>, ghost view: Heap)
    returns (e: Option<Found>)
    requires i < |p| && Mirrors(dirs, view) && Grounded(base, view) && Reaches(base, dirs, view, h, p, i)
    ensures i + 1 == |p| ==> View(base, view, p) == if e.None? then None else Some(ItemOf(base, e.value))
    ensures i + 1 < |p| && (e.None? || e.value.FoundLeaf?) ==> View(base, view, p).None?
    ensures i + 1 < |p| && e.Some? && e.value.FoundDir? ==> Reaches(base, dirs, view, e.value.handle, p, i + 1)
  {
    e := LookupIn(base, h, p[i]);
    ghost var c := p[..i + 1];
    assert p[..i] + [p[i]] == c;
    if h.Over? {
      var d := h.dir;
      OverlayStep(base, dirs, view, d.base, d.mode, d.overrides, p, i, c);
      if i + 1 == |p| { assert c == p; }
    } else if i + 1 == |p| {
      assert c == p;
    } else if p in base {
      BaseClosed(base, p, i + 1);
    }
  }

  /** ReadDir of a base directory. */
  function Listing(base: Base, p: Path): map<Name, Item> {
    var names := set q | q in base && q != [] :: q[|q| - 1];
    map n | n in names && p + [n] in base :: base[p + [n]]
  }

  lemma {:induction false} ListingIsLookup(base: Base, p: Path, n: Name)
    ensures n in Listing(base, p) <==> p + [n] in base
    ensures n in Listing(base, p) ==> Listing(base, p)[n] == base[p + [n]]
  {
    var q := p + [n];
    assert q[|q| - 1] == n;
  }

  class Overlay {
    const base: Base
    const root: OverlayDir
    ghost var dirs: map<Path, OverlayDir>
    ghost var view: Heap
    ghost var edits: seq<Edit>

    constructor (base: Base)
      requires Treelike(base) && (base == map[] || [] in base)
      ensures this.base == base && edits == [] && Valid() && fresh(dirs.Values)
    {
      var d := new OverlayDir(if [] in base then Some([]) else None, DIR_MODE, []);
      this.base, root, dirs, edits := base, d, map[[] := d], [];
      view := map[[] := ViewOf(if [] in base then Some([]) else None, DIR_MODE, map[])];
      new;
      forall q {:trigger View(base, view, q)} ensures View(base, view, q) == Seen(base, [], q) {
        if q != [] { assert q[..0] == []; }
      }
    }

    /** The visible tree is the base with the edits applied in order. */
    ghost predicate Valid()
      reads this, dirs.Values
    {
      Current(base, root, dirs, view, edits)
    }

    method AddDir(p: Path, mode: nat) returns (ok: bool)
      requires Valid()
      modifies this`dirs, this`view, this`edits, dirs.Values
      ensures Valid() && fresh(dirs.Values - old(dirs.Values))
      ensures edits == old(edits) + [MakeDir(p, mode % 0x1000)]
      ensures ok <==> Succeeds(base, old(edits), MakeDir(p, mode % 0x1000))
    {
      ghost var ds, vw;
      ok, ds, vw := MakeDirAt(base, root, p, mode % 0x1000, edits, dirs, view);
      dirs, view, edits := ds, vw, edits + [MakeDir(p, mode % 0x1000)];
    }

    /** The common part of AddFile, AddDevice and AddSymlink. */
    method AddLeaf(p: Path, leaf: Leaf) returns (ok: bool)
      requires Valid()
      modifies this`dirs, this`view, this`edits, dirs.Values
      ensures Valid() && fresh(dirs.Values - old(dirs.Values))
      ensures edits == old(edits) + [MakeLeaf(p, leaf)]
      ensures ok <==> Succeeds(base, old(edits), MakeLeaf(p, leaf))
    {
      ghost var ds, vw;
      ok, ds, vw := MakeLeafAt(base, root, p, leaf, edits, dirs, view);
      dirs, view, edits := ds, vw, edits + [MakeLeaf(p, leaf)];
    }

    method AddFile(p: Path, mode: nat, data: seq<byte>) returns (ok: bool)
      requires Valid()
      modifies this`dirs, this`view, this`edits, dirs.Values
      ensures Valid() && fresh(dirs.Values - old(dirs.Values))
      ensures edits == old(edits) + [MakeLeaf(p, File(mode % 0x1000, 0, data))]
      ensures ok <==> Succeeds(base, old(edits), MakeLeaf(p, File(mode % 0x1000, 0, data)))
    {
      ok := AddLeaf(p, File(mode % 0x1000, 0, data));
    }

    method AddDevice(p: Path, mode: nat, rdev: nat) returns (ok: bool)
      requires Valid()
      modifies this`dirs, this`view, this`edits, dirs.Values
      ensures Valid() && fresh(dirs.Values - old(dirs.Values))
      ensures edits == old(edits) + [MakeLeaf(p, File(mode, rdev, []))]
      ensures ok <==> Succeeds(base, old(edits), MakeLeaf(p, File(mode, rdev, [])))
    {
      ok := AddLeaf(p, File(mode, rdev, []));
    }

    method AddSymlink(p: Path, target: Name) returns (ok: bool)
      requires Valid()
      modifies this`dirs, this`view, this`edits, dirs.Values
      ensures Valid() && fresh(dirs.Values - old(dirs.Values))
      ensures edits == old(edits) + [MakeLeaf(p, Symlink(target))]
      ensures ok <==> Succeeds(base, old(edits), MakeLeaf(p, Symlink(target)))
    {
      ok := AddLeaf(p, Symlink(target));
    }

    /** LookupPath over the overlay's root finds what the base with the edits has at the path. */
    method LookupPath(p: Path) returns (r: Option<Found>)
      requires Valid()
      ensures Seen(base, edits, p) == if r.None? then None else Some(ItemOf(base, r.value))
    {
      assert View(base, view, p) == Seen(base, edits, p);
      if p == [] {
        assert Fits(dirs, view, root.base, root.mode, root.overrides, []);
        return Some(FoundDir(Over(root)));
      }
      var current := Over(root);
      assert p[..0] == [];
      for i := 0 to |p|
        invariant i < |p| && Reaches(base, dirs, view, current, p, i)
      {
        var e := FindNext(base, current, p, i, dirs, view);
        if i + 1 == |p| {
          return e;
        }
        if e.None? || e.value.FoundLeaf? {
          return None;
        }
        current := e.value.handle;
      }
    }

    /** What a wrapper shows: the base's listing with the overrides on top. */
    method Merge(d: OverlayDir) returns (out: map<Name, Item>)
      ensures forall n {:trigger n in out} ::
                var r := LookupIn(base, Over(d), n);
                (n in out <==> r.Some?) && (r.Some? ==> out[n] == ItemOf(base, r.value))
    {
      out := if d.base.Some? then Listing(base, d.base.value) else map[];
      forall n | d.base.Some?
        ensures n in out <==> d.base.value + [n] in base
        ensures n in out ==> out[n] == base[d.base.value + [n]]
      {
        ListingIsLookup(base, d.base.value, n);
      }
      var left := d.overrides.Keys;
      while left != {}
        invariant left <= d.overrides.Keys
        invariant forall n {:trigger n in out} :: n !in left ==>
                    var r := LookupIn(base, Over(d), n);
                    (n in out <==> r.Some?) && (r.Some? ==> out[n] == ItemOf(base, r.value))
        decreases |left|
      {
        var n :| n in left;
        out := out[n := ItemOf(base, FoundOf(d.overrides[n]))];
        left := left - {n};
      }
    }

    /**
      ReadDirContext of a wrapper lists a name exactly when a lookup in it finds the name, as what it finds,
      every name once and in ascending order.
     */
    method ReadDir(d: OverlayDir) returns (out: seq<(Name, Item)>)
      ensures Ascending(Firsts(out))
      ensures forall n {:trigger LookupIn(base, Over(d), n)} :: n in Firsts(out) <==> LookupIn(base, Over(d), n).Some?
      ensures forall e :: e in out ==>
                var r := LookupIn(base, Over(d), e.0); r.Some? && e.1 == ItemOf(base, r.value)
    {
      var merged := Merge(d);
      out := SortedEntries(merged);
      assert forall n :: n in Firsts(out) <==> n in Elements(Firsts(out));
    }
  }
}
