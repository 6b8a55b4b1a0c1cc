/** Looking a path up in a tree of nested catalogs, skipping the catalogs that cannot hold it. */
module CvmfsCatalog {
  import opened Bytes
  import opened ByteStrings
  import opened Common
  import opened Paths

  type Hash = seq<byte>
  const TOP: Hash := [48, 58, 48]  // 0:0, the parent of the root

  datatype Kind = Dir | Symlink | File
  datatype Entry = Entry(hash: Hash, parent: Hash, name: Name, kind: Kind, content: seq<byte>)
  datatype Catalog = Catalog(entries: seq<Entry>, nested: seq<Mount>)
  datatype Mount = Mount(path: Path, child: Catalog)

  /** The path that each hash stands for. */
  type Assignment = map<Hash, Path>

  // ----- the string tests -----

  predicate HasCommonFragment(a: Path, b: Path) {
    Text(b) <= Text(a) || (|Text(b)| > |Text(a)| && Text(a) + [SLASH] <= Text(b))
  }

  predicate ShouldWalk(mount: Path, target: Path) {
    Text(target) == Text(mount) || (|Text(target)| > |Text(mount)| && Text(mount) + [SLASH] <= Text(target))
  }

  /** Pruning keeps a catalog exactly when the path lies at or below its mount point, unless that is the root. */
  lemma {:induction false} PruneIsExact(mount: Path, target: Path)
    requires Clean(mount) && Clean(target)
    ensures (ShouldWalk(mount, target) <==> mount <= target) <==> !(mount == [] && target != [])
  {
    PrefixTest(mount, target);
    TextInjective(mount, target);
  }

  // ----- the walk as a list of visits -----

  datatype Visit = Visit(path: Path, entry: Entry)

  function PathOf(p: Assignment, e: Entry): Path {
    if e.hash in p then p[e.hash] else []
  }

  /** The entries of one catalog, in order, that are shown. */
  function EntryVisits(p: Assignment, es: seq<Entry>, show: Path -> bool): seq<Visit> {
    if es == [] then []
    else
      var before, e := EntryVisits(p, es[..|es| - 1], show), es[|es| - 1];
      if show(PathOf(p, e)) then before + [Visit(PathOf(p, e), e)] else before
  }

  /** A walk: the catalog's own entries that are shown, then its nested catalogs that are walked. */
  function Visits(p: Assignment, cat: Catalog, show: Path -> bool, walk: Path -> bool): seq<Visit>
    decreases cat, 0
  {
    EntryVisits(p, cat.entries, show) + NestedVisits(p, cat, |cat.nested|, show, walk)
  }

  function NestedVisits(p: Assignment, cat: Catalog, n: nat, show: Path -> bool, walk: Path -> bool): seq<Visit>
    requires n <= |cat.nested|
    decreases cat, 0, n
  {
    if n == 0 then []
    else
      var before, m := NestedVisits(p, cat, n - 1, show, walk), cat.nested[n - 1];
      if walk(m.path) then before + Visits(p, m.child, show, walk) else before
  }

  function All(q: Path): bool { true }

  /** The tests of a lookup: entries with a common fragment, catalogs that should be walked. */
  function Shown(target: Path): Path -> bool { q => HasCommonFragment(q, target) }
  function Walked(target: Path): Path -> bool { m => ShouldWalk(m, target) }

  /** The walk of the whole tree. */
  function FullVisits(p: Assignment, cat: Catalog): seq<Visit> { Visits(p, cat, All, All) }

  /** The first visit of the target, where the walk stops. */
  function First(vs: seq<Visit>, target: Path): Option<Entry> {
    if vs == [] then None
    else
      var before := First(vs[..|vs| - 1], target);
      if before.Some? then before
      else if vs[|vs| - 1].path == target then Some(vs[|vs| - 1].entry)
      else None
  }

  lemma {:induction false} FirstAppend(a: seq<Visit>, b: seq<Visit>, target: Path)
    ensures First(a + b, target) == if First(a, target).Some? then First(a, target) else First(b, target)
  {
    if b == [] {
      assert a + b == a;
    } else {
      FirstAppend(a, b[..|b| - 1], target);
      assert (a + b)[..|a + b| - 1] == a + b[..|b| - 1];
    }
  }

  lemma {:induction false} FirstOne(v: Visit, target: Path)
    ensures First([v], target) == if v.path == target then Some(v.entry) else None
  {
    assert [v][..0] == [];
  }

  lemma {:induction false} NotVisited(vs: seq<Visit>, target: Path)
    requires forall i :: 0 <= i < |vs| ==> vs[i].path != target
    ensures First(vs, target) == None
  {
    if vs != [] { NotVisited(vs[..|vs| - 1], target); }
  }

  // ----- which visit comes first, by positions -----

  ghost predicate NoneAt(p: Assignment, es: seq<Entry>, target: Path) {
    forall j {:trigger es[j]} :: 0 <= j < |es| ==> PathOf(p, es[j]) != target
  }

  lemma {:induction false} NoEntryVisit(p: Assignment, es: seq<Entry>, target: Path)
    requires NoneAt(p, es, target)
    ensures First(EntryVisits(p, es, All), target) == None
  {
    if es != [] {
      var n := |es| - 1;
      NoEntryVisit(p, es[..n], target);
      FirstAppend(EntryVisits(p, es[..n], All), [Visit(PathOf(p, es[n]), es[n])], target);
      FirstOne(Visit(PathOf(p, es[n]), es[n]), target);
    }
  }

  lemma {:induction false} FirstEntryVisit(p: Assignment, es: seq<Entry>, target: Path, i: nat)
    requires i < |es| && PathOf(p, es[i]) == target && NoneAt(p, es[..i], target)
    ensures First(EntryVisits(p, es, All), target) == Some(es[i])
  {
    var n := |es| - 1;
    FirstAppend(EntryVisits(p, es[..n], All), [Visit(PathOf(p, es[n]), es[n])], target);
    FirstOne(Visit(PathOf(p, es[n]), es[n]), target);
    if i < n {
      assert es[..n][..i] == es[..i];
      FirstEntryVisit(p, es[..n], target, i);
    } else {
      NoEntryVisit(p, es[..n], target);
    }
  }

  /** A catalog's own entries come before its nested catalogs, and in their order. */
  lemma {:induction false} OwnEntryFirst(p: Assignment, cat: Catalog, target: Path, i: nat)
    requires i < |cat.entries| && PathOf(p, cat.entries[i]) == target && NoneAt(p, cat.entries[..i], target)
    ensures First(FullVisits(p, cat), target) == Some(cat.entries[i])
  {
    FirstEntryVisit(p, cat.entries, target, i);
    FirstAppend(EntryVisits(p, cat.entries, All), NestedVisits(p, cat, |cat.nested|, All, All), target);
  }

  /** The first `n` nested catalogs do not have the path. */
  ghost predicate NoneNested(p: Assignment, cat: Catalog, n: nat, target: Path) {
    n <= |cat.nested| && forall j {:trigger cat.nested[j]} :: 0 <= j < n ==>
      First(FullVisits(p, cat.nested[j].child), target) == None
  }

  lemma {:induction false} NoNestedVisit(p: Assignment, cat: Catalog, n: nat, target: Path)
    requires NoneNested(p, cat, n, target)
    ensures First(NestedVisits(p, cat, n, All, All), target) == None
    decreases n
  {
    if n > 0 {
      NoNestedVisit(p, cat, n - 1, target);
      FirstAppend(NestedVisits(p, cat, n - 1, All, All), FullVisits(p, cat.nested[n - 1].child), target);
    }
  }

  lemma {:induction false} FirstNested(p: Assignment, cat: Catalog, n: nat, target: Path, k: nat)
    requires k < n <= |cat.nested| && NoneNested(p, cat, k, target)
    requires First(FullVisits(p, cat.nested[k].child), target).Some?
    ensures First(NestedVisits(p, cat, n, All, All), target) == First(FullVisits(p, cat.nested[k].child), target)
    decreases n
  {
    if k < n - 1 { FirstNested(p, cat, n - 1, target, k); } else { NoNestedVisit(p, cat, k, target); }
    FirstAppend(NestedVisits(p, cat, n - 1, All, All), FullVisits(p, cat.nested[n - 1].child), target);
  }

  /** Of its nested catalogs, the first that has the path decides. */
  lemma {:induction false} NestedCatalogNext(p: Assignment, cat: Catalog, target: Path, k: nat)
    requires NoneAt(p, cat.entries, target) && k < |cat.nested|
    requires NoneNested(p, cat, k, target) && First(FullVisits(p, cat.nested[k].child), target).Some?
    ensures First(FullVisits(p, cat), target) == First(FullVisits(p, cat.nested[k].child), target)
  {
    NoEntryVisit(p, cat.entries, target);
    FirstNested(p, cat, |cat.nested|, target, k);
    FirstAppend(EntryVisits(p, cat.entries, All), NestedVisits(p, cat, |cat.nested|, All, All), target);
  }

  // ----- the walk as a search -----

  function FindEntries(p: Assignment, es: seq<Entry>, show: Path -> bool, target: Path): Option<Entry> {
    if es == [] then None
    else
      var before, e := FindEntries(p, es[..|es| - 1], show, target), es[|es| - 1];
      if before.Some? then before else if show(PathOf(p, e)) && PathOf(p, e) == target then Some(e) else None
  }

  function Find(p: Assignment, cat: Catalog, show: Path -> bool, walk: Path -> bool, target: Path)
    : Option<Entry>
    decreases cat, 0
  {
    var own := FindEntries(p, cat.entries, show, target);
    if own.Some? then own else FindNested(p, cat, |cat.nested|, show, walk, target)
  }

  function FindNested(p: Assignment, cat: Catalog, n: nat, show: Path -> bool, walk: Path -> bool, target: Path)
    : Option<Entry>
    requires n <= |cat.nested|
    decreases cat, 0, n
  {
    if n == 0 then None
    else
      var before, m := FindNested(p, cat, n - 1, show, walk, target), cat.nested[n - 1];
      if before.Some? then before else if walk(m.path) then Find(p, m.child, show, walk, target) else None
  }

  lemma {:induction false} FindEntriesIsFirst(p: Assignment, es: seq<Entry>, show: Path -> bool, target: Path)
    ensures FindEntries(p, es, show, target) == First(EntryVisits(p, es, show), target)
  {
    if es != [] {
      var n := |es| - 1;
      FindEntriesIsFirst(p, es[..n], show, target);
      var v := Visit(PathOf(p, es[n]), es[n]);
      FirstAppend(EntryVisits(p, es[..n], show), [v], target);
      FirstOne(v, target);
    }
  }

  /** Searching finds the first visit of the target. */
  lemma {:induction false} FindIsFirst(p: Assignment, cat: Catalog, show: Path -> bool, walk: Path -> bool,
                                       target: Path)
    ensures Find(p, cat, show, walk, target) == First(Visits(p, cat, show, walk), target)
    decreases cat, 0
  {
    FindEntriesIsFirst(p, cat.entries, show, target);
    FindNestedIsFirst(p, cat, |cat.nested|, show, walk, target);
    FirstAppend(EntryVisits(p, cat.entries, show), NestedVisits(p, cat, |cat.nested|, show, walk), target);
  }

  lemma {:induction false} FindNestedIsFirst(p: Assignment, cat: Catalog, n: nat, show: Path -> bool,
                                             walk: Path -> bool, target: Path)
    requires n <= |cat.nested|
    ensures FindNested(p, cat, n, show, walk, target) == First(NestedVisits(p, cat, n, show, walk), target)
    decreases cat, 0, n
  {
    if n > 0 {
      var m := cat.nested[n - 1];
      FindNestedIsFirst(p, cat, n - 1, show, walk, target);
      FindIsFirst(p, m.child, show, walk, target);
      FirstAppend(NestedVisits(p, cat, n - 1, show, walk), Visits(p, m.child, show, walk), target);
    }
  }

  // ----- well-formed catalog trees -----

  /** The content of a nested catalog lies below its mount point, and no mount point is the root. */
  ghost predicate Mounted(p: Assignment, cat: Catalog) {
    forall i {:trigger cat.nested[i]} :: 0 <= i < |cat.nested| ==>
      var m := cat.nested[i];
      && m.path != [] && Clean(m.path) && Mounted(p, m.child)
      && forall v :: v in FullVisits(p, m.child) ==> m.path <= v.path
  }

  /** The tests are true of the target and of every mount point at or above it. */
  ghost predicate Keeps(show: Path -> bool, walk: Path -> bool, target: Path) {
    show(target) && forall m :: m != [] && Clean(m) && m <= target ==> walk(m)
  }

  /** The tests of a lookup keep what leads to the target. */
  lemma {:induction false} LookupKeeps(target: Path)
    requires Clean(target)
    ensures Keeps(Shown(target), Walked(target), target)
  {
    forall m | m != [] && Clean(m) && m <= target ensures ShouldWalk(m, target) {
      PruneIsExact(m, target);
    }
  }

  lemma {:induction false} ShownEntries(p: Assignment, es: seq<Entry>, show: Path -> bool, target: Path)
    requires show(target)
    ensures FindEntries(p, es, show, target) == FindEntries(p, es, All, target)
  {
    if es != [] { ShownEntries(p, es[..|es| - 1], show, target); }
  }

  lemma {:induction false} PrunedSearch(p: Assignment, cat: Catalog, show: Path -> bool, walk: Path -> bool,
                                        target: Path)
    requires Keeps(show, walk, target) && Mounted(p, cat)
    ensures Find(p, cat, show, walk, target) == Find(p, cat, All, All, target)
    decreases cat, 0
  {
    ShownEntries(p, cat.entries, show, target);
    PrunedNested(p, cat, |cat.nested|, show, walk, target);
  }

  lemma {:induction false} NotBelow(mount: Path, target: Path, vs: seq<Visit>)
    requires !(mount <= target) && forall v :: v in vs ==> mount <= v.path
    ensures First(vs, target) == None
  {
    NotVisited(vs, target);
  }

  lemma {:induction false} PrunedNested(p: Assignment, cat: Catalog, n: nat, show: Path -> bool, walk: Path -> bool,
                                        target: Path)
    requires Keeps(show, walk, target) && Mounted(p, cat) && n <= |cat.nested|
    ensures FindNested(p, cat, n, show, walk, target) == FindNested(p, cat, n, All, All, target)
    decreases cat, 0, n
  {
    if n > 0 {
      var m := cat.nested[n - 1];
      PrunedNested(p, cat, n - 1, show, walk, target);
      PrunedSearch(p, m.child, show, walk, target);
      if !walk(m.path) {
        FindIsFirst(p, m.child, All, All, target);
        NotBelow(m.path, target, FullVisits(p, m.child));
      }
    }
  }

  /** A walk that keeps what leads to the target finds what the full walk finds. */
  lemma {:induction false} PrunedFinds(p: Assignment, cat: Catalog, show: Path -> bool, walk: Path -> bool,
                                       target: Path)
    requires Keeps(show, walk, target) && Mounted(p, cat)
    ensures First(Visits(p, cat, show, walk), target) == First(FullVisits(p, cat), target)
  {
    PrunedSearch(p, cat, show, walk, target);
    FindIsFirst(p, cat, show, walk, target);
    FindIsFirst(p, cat, All, All, target);
  }

  /** The content of a nested catalog lies at or below its mount point, which may be the root. */
  ghost predicate Contained(p: Assignment, cat: Catalog) {
    forall i {:trigger cat.nested[i]} :: 0 <= i < |cat.nested| ==>
      var m := cat.nested[i];
      && Clean(m.path) && Contained(p, m.child)
      && forall v :: v in FullVisits(p, m.child) ==> m.path <= v.path
  }

  predicate NotRoot(m: Path) { m != [] }

  /** What a walk that enters no catalog mounted at the root visits. */
  function OffRootVisits(p: Assignment, cat: Catalog): seq<Visit> { Visits(p, cat, All, NotRoot) }

  /** A walk that leaves catalogs out finds nothing that the full walk does not find. */
  lemma {:induction false} NothingNew(p: Assignment, cat: Catalog, walk: Path -> bool, target: Path)
    requires Find(p, cat, All, All, target) == None
    ensures Find(p, cat, All, walk, target) == None
    decreases cat, 0
  {
    NothingNewNested(p, cat, |cat.nested|, walk, target);
  }

  lemma {:induction false} NothingNewNested(p: Assignment, cat: Catalog, n: nat, walk: Path -> bool, target: Path)
    requires n <= |cat.nested| && FindNested(p, cat, n, All, All, target) == None
    ensures FindNested(p, cat, n, All, walk, target) == None
    decreases cat, 0, n
  {
    if n > 0 {
      NothingNewNested(p, cat, n - 1, walk, target);
      NothingNew(p, cat.nested[n - 1].child, walk, target);
    }
  }

  /** Which catalogs a lookup enters that the full walk, or the walk off the root, does not, and the other way round. */
  lemma {:induction false} WalkedMounts(m: Path, target: Path)
    requires Clean(m) && Clean(target)
    ensures ShouldWalk(m, target) <==> if m == [] then target == [] else m <= target
  {
    PruneIsExact(m, target);
  }

  lemma {:induction false} Elsewhere(p: Assignment, m: Mount, walk: Path -> bool, target: Path)
    requires !(m.path <= target) && forall v :: v in FullVisits(p, m.child) ==> m.path <= v.path
    ensures Find(p, m.child, All, walk, target) == None
  {
    FindIsFirst(p, m.child, All, All, target);
    NotBelow(m.path, target, FullVisits(p, m.child));
    NothingNew(p, m.child, walk, target);
  }

  /** The catalogs that a lookup of the path would have to enter, the root's aside. */
  function Wanted(target: Path): Path -> bool { if target == [] then All else NotRoot }

  /** What a lookup's test for catalogs amounts to. */
  ghost predicate Prunes(walk: Path -> bool, target: Path) {
    forall m {:trigger walk(m)} :: Clean(m) ==> (walk(m) <==> if m == [] then target == [] else m <= target)
  }

  lemma {:induction false} WalkedPrunes(target: Path)
    requires Clean(target)
    ensures Prunes(Walked(target), target)
  {
    forall m | Clean(m) ensures Walked(target)(m) <==> if m == [] then target == [] else m <= target {
      WalkedMounts(m, target);
    }
  }

  /** For a path other than the root a lookup finds what the walk off the root finds; for the root, the full walk. */
  lemma {:induction false} LookupSearch(p: Assignment, cat: Catalog, target: Path, show: Path -> bool,
                                        walk: Path -> bool)
    requires Contained(p, cat) && show(target) && Prunes(walk, target)
    ensures Find(p, cat, show, walk, target) == Find(p, cat, All, Wanted(target), target)
    decreases cat, 0
  {
    ShownEntries(p, cat.entries, show, target);
    LookupNested(p, cat, |cat.nested|, target, show, walk);
  }

  lemma {:induction false} LookupNested(p: Assignment, cat: Catalog, n: nat, target: Path, show: Path -> bool,
                                        walk: Path -> bool)
    requires Contained(p, cat) && show(target) && Prunes(walk, target) && n <= |cat.nested|
    ensures FindNested(p, cat, n, show, walk, target) == FindNested(p, cat, n, All, Wanted(target), target)
    decreases cat, 0, n
  {
    if n > 0 {
      var m := cat.nested[n - 1];
      LookupNested(p, cat, n - 1, target, show, walk);
      LookupSearch(p, m.child, target, show, walk);
      if !walk(m.path) && Wanted(target)(m.path) { Elsewhere(p, m, Wanted(target), target); }
    }
  }

  // ----- where in the tree a visit lies -----

  /** A visit of the full walk, and whether it lies in a catalog reached through a mount at the root. */
  datatype Spot = Spot(path: Path, entry: Entry, behind: bool)

  function EntrySpots(p: Assignment, es: seq<Entry>, behind: bool): seq<Spot> {
    if es == [] then []
    else EntrySpots(p, es[..|es| - 1], behind) + [Spot(PathOf(p, es[|es| - 1]), es[|es| - 1], behind)]
  }

  /** The visits of the full walk, in order. */
  function Spots(p: Assignment, cat: Catalog, behind: bool): seq<Spot>
    decreases cat, 0
  {
    EntrySpots(p, cat.entries, behind) + NestedSpots(p, cat, |cat.nested|, behind)
  }

  function NestedSpots(p: Assignment, cat: Catalog, n: nat, behind: bool): seq<Spot>
    requires n <= |cat.nested|
    decreases cat, 0, n
  {
    if n == 0 then []
    else
      var m := cat.nested[n - 1];
      NestedSpots(p, cat, n - 1, behind) + Spots(p, m.child, behind || m.path == [])
  }

  /** A visit of the target; unless all count, one that is not behind a mount at the root. */
  predicate Counts(s: Spot, target: Path, all: bool) { s.path == target && (all || !s.behind) }

  ghost predicate FirstAt(ts: seq<Spot>, target: Path, all: bool, i: nat) {
    && i < |ts| && Counts(ts[i], target, all)
    && forall k {:trigger Counts(ts[k], target, all)} :: 0 <= k < i ==> !Counts(ts[k], target, all)
  }

  function FirstSpot(ts: seq<Spot>, target: Path, all: bool): Option<Entry> {
    if ts == [] then None
    else
      var before := FirstSpot(ts[..|ts| - 1], target, all);
      if before.Some? then before
      else if Counts(ts[|ts| - 1], target, all) then Some(ts[|ts| - 1].entry)
      else None
  }

  lemma {:induction false} FirstSpotAppend(a: seq<Spot>, b: seq<Spot>, target: Path, all: bool)
    ensures FirstSpot(a + b, target, all) ==
            if FirstSpot(a, target, all).Some? then FirstSpot(a, target, all) else FirstSpot(b, target, all)
  {
    if b == [] {
      assert a + b == a;
    } else {
      FirstSpotAppend(a, b[..|b| - 1], target, all);
      assert (a + b)[..|a + b| - 1] == a + b[..|b| - 1];
    }
  }

  lemma {:induction false} OneSpot(s: Spot, target: Path, all: bool)
    ensures FirstSpot([s], target, all) == if Counts(s, target, all) then Some(s.entry) else None
  {
    assert [s][..0] == [];
  }

  lemma {:induction false} NoSpot(ts: seq<Spot>, target: Path, all: bool)
    requires forall k {:trigger Counts(ts[k], target, all)} :: 0 <= k < |ts| ==> !Counts(ts[k], target, all)
    ensures FirstSpot(ts, target, all) == None
  {
    if ts != [] {
      var n := |ts| - 1;
      forall k | 0 <= k < n ensures !Counts(ts[..n][k], target, all) { assert !Counts(ts[k], target, all); }
      NoSpot(ts[..n], target, all);
      assert !Counts(ts[n], target, all);
    }
  }

  lemma {:induction false} SomeSpot(ts: seq<Spot>, target: Path, all: bool, k: nat)
    requires k < |ts| && Counts(ts[k], target, all)
    ensures FirstSpot(ts, target, all).Some?
  {
    var n := |ts| - 1;
    if k < n { SomeSpot(ts[..n], target, all, k); }
  }

  lemma {:induction false} FirstSpotIsAt(ts: seq<Spot>, target: Path, all: bool, i: nat)
    requires FirstAt(ts, target, all, i)
    ensures FirstSpot(ts, target, all) == Some(ts[i].entry)
  {
    var n := |ts| - 1;
    var before := ts[..n];
    assert forall k :: 0 <= k < n ==> before[k] == ts[k];
    if i < n {
      assert Counts(before[i], target, all);
      forall k | 0 <= k < i ensures !Counts(before[k], target, all) { assert !Counts(ts[k], target, all); }
      FirstSpotIsAt(before, target, all, i);
    } else {
      forall k | 0 <= k < n ensures !Counts(before[k], target, all) { assert !Counts(ts[k], target, all); }
      NoSpot(before, target, all);
    }
  }

  lemma {:induction false} FirstAtExists(ts: seq<Spot>, target: Path, all: bool) returns (i: nat)
    requires FirstSpot(ts, target, all).Some?
    ensures FirstAt(ts, target, all, i)
  {
    var n := |ts| - 1;
    var before := ts[..n];
    if FirstSpot(before, target, all).Some? {
      i := FirstAtExists(before, target, all);
      forall k | 0 <= k < i ensures !Counts(ts[k], target, all) { assert !Counts(before[k], target, all); }
    } else {
      i := n;
      forall k | 0 <= k < n ensures !Counts(ts[k], target, all) {
        if Counts(ts[k], target, all) {
          assert Counts(before[k], target, all);
          SomeSpot(before, target, all, k);
        }
      }
    }
  }

  lemma {:induction false} EntrySpotsFind(p: Assignment, es: seq<Entry>, behind: bool, target: Path, all: bool)
    ensures FirstSpot(EntrySpots(p, es, behind), target, all) ==
            if all || !behind then FindEntries(p, es, All, target) else None
  {
    if es != [] {
      var n := |es| - 1;
      EntrySpotsFind(p, es[..n], behind, target, all);
      var s := Spot(PathOf(p, es[n]), es[n], behind);
      FirstSpotAppend(EntrySpots(p, es[..n], behind), [s], target, all);
      OneSpot(s, target, all);
    }
  }

  /** The first visit is what the full walk finds; the first that is not behind, what the walk off the root finds. */
  lemma {:induction false} SpotsFind(p: Assignment, cat: Catalog, behind: bool, target: Path, all: bool)
    ensures FirstSpot(Spots(p, cat, behind), target, all) ==
            if all then Find(p, cat, All, All, target)
            else if behind then None
            else Find(p, cat, All, NotRoot, target)
    decreases cat, 0
  {
    EntrySpotsFind(p, cat.entries, behind, target, all);
    NestedSpotsFind(p, cat, |cat.nested|, behind, target, all);
    FirstSpotAppend(EntrySpots(p, cat.entries, behind), NestedSpots(p, cat, |cat.nested|, behind), target, all);
  }

  lemma {:induction false} NestedSpotsFind(p: Assignment, cat: Catalog, n: nat, behind: bool, target: Path, all: bool)
    requires n <= |cat.nested|
    ensures FirstSpot(NestedSpots(p, cat, n, behind), target, all) ==
            if all then FindNested(p, cat, n, All, All, target)
            else if behind then None
            else FindNested(p, cat, n, All, NotRoot, target)
    decreases cat, 0, n
  {
    if n > 0 {
      var m := cat.nested[n - 1];
      NestedSpotsFind(p, cat, n - 1, behind, target, all);
      SpotsFind(p, m.child, behind || m.path == [], target, all);
      FirstSpotAppend(NestedSpots(p, cat, n - 1, behind), Spots(p, m.child, behind || m.path == []), target, all);
    }
  }

  /** What a lookup finds first, without its tests. */
  function Reached(p: Assignment, cat: Catalog, target: Path): Option<Entry> {
    First(if target == [] then FullVisits(p, cat) else OffRootVisits(p, cat), target)
  }

  /** The first visit lies behind a mount at the root, and the first visit elsewhere, if any, is of another entry. */
  ghost predicate LostBehind(ts: seq<Spot>, target: Path, i: nat) {
    && FirstAt(ts, target, true, i) && ts[i].behind
    && forall j: nat :: FirstAt(ts, target, false, j) ==> ts[j].entry != ts[i].entry
  }

  /** By positions: the first visits of both kinds are of the same entry, or there is none, unless one is lost. */
  lemma {:induction false} SameFirst(ts: seq<Spot>, target: Path)
    ensures FirstSpot(ts, target, false) == FirstSpot(ts, target, true) <==> forall i: nat :: !LostBehind(ts, target, i)
  {
    if FirstSpot(ts, target, true).Some? {
      var i := FirstAtExists(ts, target, true);
      FirstSpotIsAt(ts, target, true, i);
      forall k: nat | FirstAt(ts, target, true, k) ensures k == i {
        assert Counts(ts[k], target, true) && Counts(ts[i], target, true);
      }
      if !ts[i].behind {
        assert Counts(ts[i], target, false);
        forall k | 0 <= k < i ensures !Counts(ts[k], target, false) { assert !Counts(ts[k], target, true); }
        FirstSpotIsAt(ts, target, false, i);
      } else if FirstSpot(ts, target, false).Some? {
        var j := FirstAtExists(ts, target, false);
        FirstSpotIsAt(ts, target, false, j);
        forall k: nat | FirstAt(ts, target, false, k) ensures ts[k].entry == ts[j].entry {
          FirstSpotIsAt(ts, target, false, k);
        }
        assert LostBehind(ts, target, i) <==> ts[j].entry != ts[i].entry;
      } else {
        forall k: nat ensures !FirstAt(ts, target, false, k) {
          if FirstAt(ts, target, false, k) { FirstSpotIsAt(ts, target, false, k); }
        }
        assert LostBehind(ts, target, i);
      }
    } else {
      forall i: nat ensures !FirstAt(ts, target, true, i) {
        if FirstAt(ts, target, true, i) { FirstSpotIsAt(ts, target, true, i); }
      }
      if FirstSpot(ts, target, false).Some? {
        var j := FirstAtExists(ts, target, false);
        SomeSpot(ts, target, true, j);
      }
    }
  }

  /**
    A lookup finds what the walk off the root finds. It finds what the full walk finds unless the first visit
    of the path lies behind a mount at the root and no equal entry is the first elsewhere.
   */
  lemma {:induction false} LookupExact(p: Assignment, cat: Catalog, target: Path)
    requires Contained(p, cat) && Clean(target)
    ensures First(Visits(p, cat, Shown(target), Walked(target)), target) == Reached(p, cat, target)
    ensures First(Visits(p, cat, Shown(target), Walked(target)), target) == First(FullVisits(p, cat), target) <==>
            target == [] || forall i: nat :: !LostBehind(Spots(p, cat, false), target, i)
  {
    LookupKeeps(target);
    WalkedPrunes(target);
    LookupSearch(p, cat, target, Shown(target), Walked(target));
    FindIsFirst(p, cat, Shown(target), Walked(target), target);
    FindIsFirst(p, cat, All, Wanted(target), target);
    FindIsFirst(p, cat, All, All, target);
    SpotsFind(p, cat, false, target, true);
    SpotsFind(p, cat, false, target, false);
    SameFirst(Spots(p, cat, false), target);
  }

  // ----- the walk as the code does it -----

  function JoinName(dir: Path, name: Name): Path { if name == [] then dir else dir + [name] }

  /** A name that joining and cleaning leaves as it is: no slash in it, and not a dot or two. */
  predicate Plain(name: Name) { SLASH !in name && name != [46] && name != [46, 46] }

  /** The entry's path extends its parent's, so parent links lead upwards. */
  predicate Consistent(p: Assignment, e: Entry) {
    && Plain(e.name) && TOP in p && p[TOP] == [] && e.hash in p && e.parent in p
    && p[e.hash] == (if e.name == [] then p[e.parent] else p[e.parent] + [e.name]) && (e.parent == TOP || e.name != [])
  }

  /** Resolved paths agree with the assignment. */
  ghost predicate Agrees(m: map<Hash, Path>, p: Assignment) {
    forall h :: h in m ==> h in p && m[h] == p[h]
  }

  ghost predicate Locals(local: map<Hash, Entry>, p: Assignment) {
    forall h :: h in local ==> local[h].hash == h && Consistent(p, local[h])
  }

  /** Every parent is resolved already or in the same catalog. */
  ghost predicate Anchored(local: map<Hash, Entry>, global: map<Hash, Path>) {
    forall h :: h in local ==> local[h].parent in global || local[h].parent in local
  }

  /** The paths resolved so far: in this catalog, and in the walk as a whole. */
  datatype Resolved = Resolved(memo: map<Hash, Path>, global: map<Hash, Path>)

  ghost predicate Grows(r: Resolved, r': Resolved, p: Assignment) {
    Agrees(r'.memo, p) && Agrees(r'.global, p) && r.global.Keys <= r'.global.Keys
  }

  /** resolve */
  method Resolve(e: Entry, local: map<Hash, Entry>, r: Resolved, ghost p: Assignment)
    returns (full: Option<Path>, r': Resolved)
    requires Consistent(p, e) && Locals(local, p) && TOP in r.global && Grows(r, r, p)
    ensures Grows(r, r', p)
    ensures full.Some? ==> full.value == p[e.hash] && e.hash in r'.memo
    ensures Anchored(local, r.global) && (e.parent in r.global || e.parent in local) ==> full.Some?
    ensures full.Some? && (r.memo.Keys <= r.global.Keys) ==> e.hash in r'.global && r'.memo.Keys <= r'.global.Keys
    decreases |p[e.hash]|
  {
    r' := r;
    if e.hash in r.memo {
      return Some(r.memo[e.hash]), r;
    }
    var parent;
    if e.parent in r.global {
      parent := r.global[e.parent];
    } else if e.parent in local {
      var up;
      up, r' := Resolve(local[e.parent], local, r, p);
      if up.None? {
        return None, r';
      }
      parent := up.value;
    } else {
      return None, r;
    }
    var path := JoinName(parent, e.name);
    r' := Resolved(r'.memo[e.hash := path], r'.global[e.hash := path]);
    full := Some(path);
  }

  ghost function Hashes(es: seq<Entry>): set<Hash> { set e | e in es :: e.hash }

  /** Hashes stand for one path each, and parent links lead upwards, in the whole tree. */
  ghost predicate Sound(p: Assignment, cat: Catalog) {
    && (forall e :: e in cat.entries ==> Consistent(p, e))
    && (forall i {:trigger cat.nested[i]} :: 0 <= i < |cat.nested| ==> Sound(p, cat.nested[i].child))
  }

  ghost predicate ParentsIn(es: seq<Entry>, known: set<Hash>) {
    forall e :: e in es ==> e.parent in known || e.parent in Hashes(es)
  }

  /** Every entry's parent is in its own catalog or in one above it. */
  ghost predicate Rooted(cat: Catalog, known: set<Hash>)
    decreases cat, 1
  {
    ParentsIn(cat.entries, known) && ChildrenRooted(cat, known + Hashes(cat.entries))
  }

  ghost predicate ChildrenRooted(cat: Catalog, known: set<Hash>)
    decreases cat, 0
  {
    forall i {:trigger cat.nested[i]} :: 0 <= i < |cat.nested| ==> Rooted(cat.nested[i].child, known)
  }

  /** The catalog's entries by hash. */
  method Index(es: seq<Entry>, ghost p: Assignment) returns (local: map<Hash, Entry>)
    requires forall e :: e in es ==> Consistent(p, e)
    ensures Locals(local, p) && local.Keys == Hashes(es) && forall h :: h in local ==> local[h] in es
  {
    local := map[];
    for i := 0 to |es|
      invariant Locals(local, p) && local.Keys == Hashes(es[..i]) && forall h :: h in local ==> local[h] in es
    {
      local := local[es[i].hash := es[i]];
      assert es[..i + 1] == es[..i] + [es[i]];
    }
    assert es[..|es|] == es;
  }

  lemma {:induction false} AnchoredIn(es: seq<Entry>, local: map<Hash, Entry>, global: map<Hash, Path>,
                                      global': map<Hash, Path>, known: set<Hash>)
    requires global.Keys <= global'.Keys && local.Keys == Hashes(es) && forall h :: h in local ==> local[h] in es
    ensures known <= global.Keys && ParentsIn(es, known) ==>
              Anchored(local, global') && forall e :: e in es ==> e.parent in global' || e.parent in local
  {}

  /** What one more entry adds to the visits, and to the resolved hashes. */
  lemma {:induction false} VisitNext(p: Assignment, es: seq<Entry>, i: nat, show: Path -> bool, target: Path)
    requires i < |es|
    ensures Hashes(es[..i + 1]) == Hashes(es[..i]) + {es[i].hash}
    ensures var before, q := FindEntries(p, es[..i], show, target), PathOf(p, es[i]);
            FindEntries(p, es[..i + 1], show, target) ==
            if before.Some? then before else if show(q) && q == target then Some(es[i]) else None
  {
    assert es[..i + 1][..i] == es[..i] && es[..i + 1] == es[..i] + [es[i]];
  }

  /** A visit found among the first entries stays the first. */
  lemma {:induction false} FirstStays(p: Assignment, es: seq<Entry>, n: nat, show: Path -> bool, target: Path)
    requires n <= |es| && FindEntries(p, es[..n], show, target).Some?
    ensures FindEntries(p, es, show, target) == FindEntries(p, es[..n], show, target)
  {
    if n < |es| {
      var m := |es| - 1;
      assert es[..m][..n] == es[..n] && es[..m + 1] == es;
      FirstStays(p, es[..m], n, show, target);
    } else {
      assert es[..n] == es;
    }
  }

  /** The entry loop of walkCatalog with lookupFileEntry's visitor: stops at the target. */
  method WalkEntries(es: seq<Entry>, global: map<Hash, Path>, target: Path, show: Path -> bool,
                     ghost p: Assignment, ghost known: set<Hash>)
    returns (global': map<Hash, Path>, found: Option<Entry>, ok: bool)
    requires TOP in global && Agrees(global, p) && forall e :: e in es ==> Consistent(p, e)
    ensures Agrees(global', p) && global.Keys <= global'.Keys
    ensures known <= global.Keys && ParentsIn(es, known) ==> ok
    ensures ok ==> found == FindEntries(p, es, show, target)
    ensures ok && found.None? ==> Hashes(es) <= global'.Keys
  {
    var local := Index(es, p);
    var r := Resolved(map[], global);
    for i := 0 to |es|
      invariant Grows(Resolved(map[], global), r, p) && r.memo.Keys <= r.global.Keys
      invariant Hashes(es[..i]) <= r.global.Keys
      invariant FindEntries(p, es[..i], show, target) == None
    {
      var e := es[i];
      AnchoredIn(es, local, global, r.global, known);
      var full;
      full, r := Resolve(e, local, r, p);
      VisitNext(p, es, i, show, target);
      if full.None? {
        return r.global, None, false;
      }
      if show(full.value) && full.value == target {
        FirstStays(p, es, i + 1, show, target);
        return r.global, Some(e), true;
      }
    }
    assert es[..|es|] == es;
    return r.global, None, true;
  }

  /** walkCatalog for a lookup: resolves every path on the way and finds what the pruned walk visits first. */
  method Walk(cat: Catalog, global: map<Hash, Path>, target: Path, show: Path -> bool, walk: Path -> bool,
              ghost p: Assignment, ghost known: set<Hash>)
    returns (global': map<Hash, Path>, found: Option<Entry>, ok: bool)
    requires TOP in global && Agrees(global, p) && Sound(p, cat)
    ensures Agrees(global', p) && global.Keys <= global'.Keys
    ensures known <= global.Keys && Rooted(cat, known) ==> ok
    ensures ok ==> found == Find(p, cat, show, walk, target)
    decreases cat, 1
  {
    global', found, ok := WalkEntries(cat.entries, global, target, show, p, known);
    if !ok || found.Some? {
      return;
    }
    global', found, ok := WalkNested(cat, global', target, show, walk, p, known + Hashes(cat.entries));
  }

  lemma {:induction false} NestedStays(p: Assignment, cat: Catalog, i: nat, show: Path -> bool, walk: Path -> bool,
                                       target: Path, n: nat)
    requires i <= n <= |cat.nested| && FindNested(p, cat, i, show, walk, target).Some?
    ensures FindNested(p, cat, n, show, walk, target) == FindNested(p, cat, i, show, walk, target)
  {
    if i < n { NestedStays(p, cat, i, show, walk, target, n - 1); }
  }

  /** The nested loop of walkCatalog. */
  method WalkNested(cat: Catalog, global: map<Hash, Path>, target: Path, show: Path -> bool, walk: Path -> bool,
                    ghost p: Assignment, ghost known: set<Hash>)
    returns (global': map<Hash, Path>, found: Option<Entry>, ok: bool)
    requires TOP in global && Agrees(global, p) && Sound(p, cat)
    ensures Agrees(global', p) && global.Keys <= global'.Keys
    ensures known <= global.Keys && ChildrenRooted(cat, known) ==> ok
    ensures ok ==> found == FindNested(p, cat, |cat.nested|, show, walk, target)
    decreases cat, 0
  {
    global', found, ok := global, None, true;
    for i := 0 to |cat.nested|
      invariant ok && found.None? && Agrees(global', p) && global.Keys <= global'.Keys
      invariant FindNested(p, cat, i, show, walk, target) == None
    {
      var m := cat.nested[i];
      if !walk(m.path) {
        continue;
      }
      global', found, ok := Walk(m.child, global', target, show, walk, p, known);
      if !ok {
        return;
      }
      if found.Some? {
        NestedStays(p, cat, i + 1, show, walk, target, |cat.nested|);
        return;
      }
    }
  }

  datatype Lookup = NotFound | IsDir | IsSymlink | Found(entry: Entry) | Broken

  /** What a lookup reports for the entry it found. */
  function Report(found: Option<Entry>): Lookup {
    if found.None? then NotFound
    else match found.value.kind { case Dir => IsDir case Symlink => IsSymlink case File => Found(found.value) }
  }

  /** A file is given as the entry it is, a directory and a link by what they are, and nothing as nothing. */
  predicate Reports(r: Lookup, found: Option<Entry>) {
    && (r.NotFound? <==> found.None?)
    && (r.IsDir? <==> found.Some? && found.value.kind.Dir?)
    && (r.IsSymlink? <==> found.Some? && found.value.kind.Symlink?)
    && (r.Found? <==> found.Some? && found.value.kind.File?)
    && (r.Found? ==> r.entry == found.value)
  }

  /** What the search with a lookup's tests finds, in terms of walks without them. */
  lemma {:induction false} LookupMeans(p: Assignment, root: Catalog, target: Path)
    requires Clean(target)
    ensures var found := Find(p, root, Shown(target), Walked(target), target);
            && (Mounted(p, root) ==> found == First(FullVisits(p, root), target))
            && (Contained(p, root) ==> found == Reached(p, root, target))
  {
    LookupKeeps(target);
    FindIsFirst(p, root, Shown(target), Walked(target), target);
    if Mounted(p, root) { PrunedFinds(p, root, Shown(target), Walked(target), target); }
    if Contained(p, root) { LookupExact(p, root, target); }
  }

  /**
    lookupFileEntry reports what a walk of the whole catalog tree finds first, if no catalog is mounted at
    the root; else what is found without entering such catalogs. It breaks off with an error only if some
    entry's parent is nowhere in the catalogs above it.
   */
  method LookupFileEntry(root: Catalog, target: Path, ghost p: Assignment) returns (r: Lookup)
    requires Clean(target) && TOP in p && p[TOP] == [] && Sound(p, root)
    ensures Mounted(p, root) ==> r.Broken? || r == Report(First(FullVisits(p, root), target))
    ensures Contained(p, root) ==> r.Broken? || r == Report(Reached(p, root, target))
    ensures Mounted(p, root) ==> r.Broken? || Reports(r, First(FullVisits(p, root), target))
    ensures Contained(p, root) ==> r.Broken? || Reports(r, Reached(p, root, target))
    ensures Rooted(root, {TOP}) ==> !r.Broken?
  {
    var global, found, ok := Walk(root, map[TOP := []], target, Shown(target), Walked(target), p, {TOP});
    LookupMeans(p, root, target);
    r := if !ok then Broken else Report(found);
  }

  // ----- a catalog mounted at the root -----

  const ENTRY_A := Entry([1], TOP, [97], File, [])
  const PATHS_A: Assignment := map[TOP := [], [1] := [[97]]]
  const CHILD_A := Catalog([ENTRY_A], [])
  const ROOT_A := Catalog([], [Mount([], CHILD_A)])

  /** The tree is as it should be, and the full walk visits its file. */
  lemma {:induction false} RootMountIsSound()
    ensures Sound(PATHS_A, ROOT_A) && Contained(PATHS_A, ROOT_A) && Rooted(ROOT_A, {TOP})
    ensures FullVisits(PATHS_A, ROOT_A) == [Visit([[97]], ENTRY_A)] && OffRootVisits(PATHS_A, ROOT_A) == []
  {
    var es := [ENTRY_A];
    assert es[..0] == [];
    assert EntryVisits(PATHS_A, es, All) == [] + [Visit([[97]], ENTRY_A)];
    assert NestedVisits(PATHS_A, CHILD_A, 0, All, All) == [];
    assert FullVisits(PATHS_A, CHILD_A) == [Visit([[97]], ENTRY_A)];
    assert NestedVisits(PATHS_A, ROOT_A, 1, All, All) == [] + FullVisits(PATHS_A, CHILD_A);
    assert NestedVisits(PATHS_A, ROOT_A, 1, All, NotRoot) == [];
    assert JoinName([], [97]) == [[97]];
    assert Consistent(PATHS_A, ENTRY_A);
    assert Sound(PATHS_A, CHILD_A) && Contained(PATHS_A, CHILD_A);
    assert ParentsIn(es, {TOP});
    assert Rooted(CHILD_A, {TOP} + Hashes([])) by { assert {TOP} + Hashes([]) == {TOP}; }
  }

  /** With a catalog mounted at the root the lookup misses a file that is there. */
  method RootMountHides() returns (r: Lookup)
    ensures r == NotFound && First(FullVisits(PATHS_A, ROOT_A), [[97]]) == Some(ENTRY_A)
  {
    RootMountIsSound();
    FirstOne(Visit([[97]], ENTRY_A), [[97]]);
    r := LookupFileEntry(ROOT_A, [[97]], PATHS_A);
  }
}
