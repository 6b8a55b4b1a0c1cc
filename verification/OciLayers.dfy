/** Folding the layers of an image into one index of paths. */
module OciMerge {
  import opened ByteStrings
  import opened Common
  import opened OciActions
  import opened OciOrigin
  import opened Paths

  // ----- the index -----

  ghost predicate Described(m: map<Path, Node>, metas: map<Path, Meta>) {
    m.Keys == metas.Keys && forall p :: p in m ==> metas[p] == MetaOf(m[p])
  }

  ghost predicate CleanKeys(m: map<Path, Node>) {
    forall p :: p in m ==> Clean(p)
  }

  /** One more action, on an index that shows the actions before it. */
  lemma {:induction false} ShowsNext(m: map<Path, Node>, m': map<Path, Node>, actions: seq<Action>, a: Action)
    requires Shows(m, actions)
    requires a.Put? ==> m' == m[a.path := a.node]
    requires !a.Put? ==>
               forall p {:trigger p in m'} :: (p in m' <==> p in m && !Covers(a, p)) && (p in m' ==> m'[p] == m[p])
    ensures Shows(m', actions + [a])
  {
    assert (actions + [a])[..|actions|] == actions;
  }

  lemma {:induction false} RecallsNext(m: map<Path, Node>, m': map<Path, Node>, actions: seq<Action>, a: Action)
    requires Recalls(m, actions) && m' == if a.Put? then m[a.path := a.node] else m
    ensures Recalls(m', actions + [a])
  {
    assert (actions + [a])[..|actions|] == actions;
  }

  // ----- ancestors -----

  function Above(p: Path): Path
    requires p != []
  {
    p[..|p| - 1]
  }

  /** `p` is a proper ancestor, short of the root, of a path in the index. */
  ghost predicate Below(m: map<Path, Node>, p: Path) {
    p != [] && exists k :: k in m && p < k
  }

  /** The directory of `p` is in the index, or `p` hangs off the root. */
  predicate Linked1(m: map<Path, Node>, p: Path) {
    |p| <= 1 || Above(p) in m
  }

  /** Every path outside `left` has its directory. */
  ghost predicate Attached(m: map<Path, Node>, left: set<Path>) {
    forall p {:trigger Linked1(m, p)} {:trigger p in m} :: p in m && p !in left ==> Linked1(m, p)
  }

  /** The index `m` with missing ancestors added as default directories. */
  ghost predicate Grown(m: map<Path, Node>, m': map<Path, Node>) {
    forall p {:trigger p in m'} {:trigger p in m} ::
      && (p in m ==> p in m' && m'[p] == m[p])
      && (p in m' && p !in m ==> Below(m, p) && m'[p] == DEFAULT_DIR)
  }

  lemma {:induction false} GrowsBy(m: map<Path, Node>, m': map<Path, Node>, current: Path, child: Path, parent: Path,
                                   left: set<Path>)
    requires Grown(m, m') && current in m && child in m' && child != [] && child <= current && parent == Above(child)
    requires parent != [] && parent !in m' && Attached(m', left + {child})
    requires CleanKeys(m')
    ensures Clean(parent) && Grown(m, m'[parent := DEFAULT_DIR])
    ensures Attached(m'[parent := DEFAULT_DIR], left + {parent})
  {
    assert parent < current;
    var m'' := m'[parent := DEFAULT_DIR];
    forall p | p in m'' && p !in left + {parent} ensures Linked1(m'', p) {
      assert p == child || Linked1(m', p);
    }
  }

  /** The index with all ancestors, and the root added to the node map alone if it was missing. */
  lemma {:induction false} RootAdded(m: map<Path, Node>, m': map<Path, Node>, metas: map<Path, Meta>)
    requires Grown(m, m') && Described(m', metas)
    requires forall p {:trigger p in m'} :: p in m' <==> p in m || Below(m, p)
    ensures var m'' := if [] in m' then m' else m'[[] := DEFAULT_DIR];
            && (forall p {:trigger p in m''} :: p in m'' <==> p == [] || p in m || Below(m, p))
            && (forall p {:trigger m''[p]} :: p in m'' ==> m''[p] == if p in m then m[p] else DEFAULT_DIR)
            && metas.Keys == m''.Keys - (if [] in m then {} else {[]})
            && (forall p :: p in metas ==> metas[p] == MetaOf(m''[p]))
  {}

  lemma {:induction false} ClimbTo(m: map<Path, Node>, p: Path, q: Path)
    requires Attached(m, {}) && p in m && q != [] && q < p
    ensures q in m
  {
    assert Linked1(m, p);
    if |q| + 1 == |p| {
      assert q == Above(p);
    } else {
      assert q < Above(p);
      ClimbTo(m, Above(p), q);
    }
  }

  lemma {:induction false} Closure(m: map<Path, Node>, m': map<Path, Node>)
    requires Grown(m, m') && Attached(m', {})
    ensures forall p {:trigger p in m'} :: p in m' <==> p in m || Below(m, p)
  {
    forall p {:trigger p in m'} ensures p in m' <==> p in m || Below(m, p) {
      if Below(m, p) {
        var k :| k in m && p < k;
        ClimbTo(m', k, p);
      }
    }
  }

  // ----- the loops that build the index -----

  lemma {:induction false} LayerFails(before: seq<Action>, tarRef: Name, es: seq<TarEntry>, n: nat)
    requires n <= |es| && LayerActions(before, tarRef, es[..n]).None?
    ensures LayerActions(before, tarRef, es).None?
  {
    if n < |es| {
      var m := |es| - 1;
      assert es[..m][..n] == es[..n];
      LayerFails(before, tarRef, es[..m], n);
    } else {
      assert es[..n] == es;
    }
  }

  lemma {:induction false} ImageFails(layers: seq<Layer>, n: nat)
    requires n <= |layers| && ImageActions(layers[..n]).None?
    ensures ImageActions(layers).None?
  {
    if n < |layers| {
      var m := |layers| - 1;
      assert layers[..m][..n] == layers[..n];
      ImageFails(layers[..m], n);
    } else {
      assert layers[..n] == layers;
    }
  }

  class BuildState {
    var merged: map<Path, Node>
    var entries: map<Path, Meta>

    /** newIndexedBuildState */
    constructor ()
      ensures merged == map[[] := DEFAULT_DIR] && entries == map[[] := MetaOf(DEFAULT_DIR)]
    {
      merged, entries := map[[] := DEFAULT_DIR], map[[] := MetaOf(DEFAULT_DIR)];
    }

    ghost predicate Valid()
      reads this
    {
      Described(merged, entries) && CleanKeys(merged)
    }

    /** The delete loops of removeMergedPath (`self`) and of an opaque marker (not `self`). */
    method DeleteBelow(target: Path, self: bool)
      requires Valid() && Clean(target)
      modifies this
      ensures Valid()
      ensures var a := if self then Remove(target) else Clear(target);
              forall p {:trigger p in merged} :: (p in merged <==> p in old(merged) && !Covers(a, p)) &&
                                                 (p in merged ==> merged[p] == old(merged)[p])
    {
      ghost var a := if self then Remove(target) else Clear(target);
      var left := merged.Keys;
      while left != {}
        invariant Valid() && left <= merged.Keys
        invariant forall p {:trigger p in merged} ::
                    (p in merged <==> p in old(merged) && (p in left || !Covers(a, p))) &&
                    (p in merged ==> merged[p] == old(merged)[p])
        decreases |left|
      {
        var key :| key in left;
        PrefixTest(target, key);
        if (self && key == target) || Text(target) + [SLASH] <= Text(key) {
          merged, entries := merged - {key}, entries - {key};
        }
        left := left - {key};
      }
    }

    method Perform(a: Action)
      requires Valid() && CleanAction(a)
      modifies this
      ensures Valid()
      ensures a.Put? ==> merged == old(merged)[a.path := a.node]
      ensures !a.Put? ==> forall p {:trigger p in merged} :: (p in merged <==> p in old(merged) && !Covers(a, p)) &&
                                                             (p in merged ==> merged[p] == old(merged)[p])
    {
      match a
      case Put(p, n) => merged, entries := merged[p := n], entries[p := MetaOf(n)];
      case Remove(t) => DeleteBelow(t, true);
      case Clear(d) => DeleteBelow(d, false);
      case Skip =>
    }

    /** The hard link target of an entry, looked up in this layer first. */
    method HardLinkTarget(typ: EntryType, layerEntries: map<Path, Node>, ghost before: seq<Action>,
                          ghost done: seq<Action>)
      returns (linked: Option<Node>)
      requires Shows(merged, before + done) && Recalls(layerEntries, done)
      ensures linked == Linked(before, done, typ)
    {
      linked := None;
      if typ.TypeLink? && typ.to.Named? {
        var t := typ.to.path;
        if t in layerEntries {
          linked := Some(layerEntries[t]);
        } else if t in merged {
          linked := Some(merged[t]);
        }
      }
    }

    /** One turn of applyIndexedLayer's loop. */
    method ApplyEntry(e: TarEntry, tarRef: Name, layerEntries: map<Path, Node>, ghost before: seq<Action>,
                      ghost done: seq<Action>) returns (a: Option<Action>, layerEntries': map<Path, Node>)
      requires Valid() && Shows(merged, before + done) && Recalls(layerEntries, done) && CleanEntry(e)
      modifies this
      ensures Valid()
      ensures a == ActionOf(e, tarRef, Linked(before, done, e.typ))
      ensures a.Some? ==> Performs(a.value, e, tarRef, Linked(before, done, e.typ))
      ensures a.Some? ==> Shows(merged, before + (done + [a.value])) && Recalls(layerEntries', done + [a.value])
    {
      layerEntries' := layerEntries;
      var linked := HardLinkTarget(e.typ, layerEntries, before, done);
      a := ActionOf(e, tarRef, linked);
      if a.None? {
        return;
      }
      ActionIsClean(e, tarRef, linked);
      ActionPerforms(e, tarRef, linked);
      ghost var m := merged;
      Perform(a.value);
      if a.value.Put? {
        layerEntries' := layerEntries[a.value.path := a.value.node];
      }
      ShowsNext(m, merged, before + done, a.value);
      RecallsNext(layerEntries, layerEntries', done, a.value);
      Assoc(before, done, [a.value]);
    }

    /** applyIndexedLayer */
    method ApplyLayer(tarRef: Name, es: seq<TarEntry>, ghost before: seq<Action>) returns (ok: bool)
      requires Valid() && Shows(merged, before)
      requires forall i :: 0 <= i < |es| ==> CleanEntry(es[i])
      modifies this
      ensures Valid()
      ensures ok <==> LayerActions(before, tarRef, es).Some?
      ensures ok ==> Shows(merged, before + LayerActions(before, tarRef, es).value)
    {
      var layerEntries: map<Path, Node> := map[];
      ghost var done: seq<Action> := [];
      assert before + [] == before;
      for i := 0 to |es|
        invariant Valid() && Shows(merged, before + done) && Recalls(layerEntries, done)
        invariant LayerActions(before, tarRef, es[..i]) == Some(done)
      {
        assert es[..i + 1][..i] == es[..i];
        var a;
        a, layerEntries := ApplyEntry(es[i], tarRef, layerEntries, before, done);
        if a.None? {
          LayerFails(before, tarRef, es, i + 1);
          return false;
        }
        done := done + [a.value];
      }
      assert es[..|es|] == es;
      ok := true;
    }

    /**
      The whole fold: every path maps to the node of the last tar entry naming it that no later
      whiteout covers, and the metadata map describes exactly those paths.
     */
    method ApplyLayers(layers: seq<Layer>) returns (ok: bool)
      requires merged == map[[] := DEFAULT_DIR] && entries == map[[] := MetaOf(DEFAULT_DIR)]
      requires forall i, j :: 0 <= i < |layers| && 0 <= j < |layers[i].entries| ==> CleanEntry(layers[i].entries[j])
      modifies this
      ensures Valid()
      ensures ok <==> ImageActions(layers).Some?
      ensures ok ==> Shows(merged, ImageActions(layers).value)
      ensures ok <==> forall i :: 0 <= i < |AllItems(layers)| ==> Accepted(AllItems(layers), i)
      ensures ok ==> Sourced(AllItems(layers), merged)
      ensures entries.Keys == merged.Keys && forall p :: p in merged ==> Tells(entries[p], merged[p])
    {
      ImageAccepted(layers);
      ghost var done := [Put([], DEFAULT_DIR)];
      assert done[..0] == [];
      for i := 0 to |layers|
        invariant Valid() && Shows(merged, done) && ImageActions(layers[..i]) == Some(done)
      {
        assert layers[..i + 1][..i] == layers[..i];
        ok := ApplyLayer(layers[i].tarRef, layers[i].entries, done);
        if !ok {
          ImageFails(layers, i + 1);
          return;
        }
        done := done + LayerActions(done, layers[i].tarRef, layers[i].entries).value;
      }
      assert layers[..|layers|] == layers;
      ImageSourced(layers, merged);
      ok := true;
    }

    /** The walk of ensureIndexedParents up from one path. */
    method AddAncestors(current: Path, ghost old0: map<Path, Node>, ghost left: set<Path>)
      requires Valid() && current in old0 && current != [] && Grown(old0, merged)
      requires Attached(merged, left + {current})
      modifies this
      ensures Valid() && Grown(old0, merged) && Attached(merged, left)
    {
      var parent := Above(current);
      ghost var child := current;
      while parent != []
        invariant Valid() && Grown(old0, merged)
        invariant child != [] && parent == Above(child) && child <= current && child in merged
        invariant Attached(merged, left + {child})
        decreases |parent|
      {
        if parent in merged {
          break;
        }
        GrowsBy(old0, merged, current, child, parent, left);
        Perform(Put(parent, DEFAULT_DIR));
        child, parent := parent, Above(parent);
      }
    }

    /** ensureIndexedParents: adds exactly the missing ancestors, and the root to the node map alone. */
    method EnsureParents()
      requires Valid()
      modifies this
      ensures forall p {:trigger p in merged} :: p in merged <==> p == [] || p in old(merged) || Below(old(merged), p)
      ensures forall p {:trigger merged[p]} :: p in merged ==>
                merged[p] == if p in old(merged) then old(merged)[p] else DEFAULT_DIR
      ensures entries.Keys == merged.Keys - (if [] in old(merged) then {} else {[]})
      ensures forall p :: p in entries ==> entries[p] == MetaOf(merged[p])
    {
      var left := merged.Keys;
      ghost var m0 := merged;
      while left != {}
        invariant Valid() && Grown(m0, merged) && left <= m0.Keys && Attached(merged, left)
        decreases |left|
      {
        var current :| current in left;
        assert left == left - {current} + {current};
        left := left - {current};
        if current != [] {
          AddAncestors(current, m0, left);
        }
      }
      Closure(m0, merged);
      RootAdded(m0, merged, entries);
      if [] !in merged {
        merged := merged[[] := DEFAULT_DIR];
      }
    }
  }
}
