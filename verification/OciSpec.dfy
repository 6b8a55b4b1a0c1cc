/**
  What the image specification's layer.md says a list of layers means, and when the merge of OciMerge
  comes to the same.
 */
module OciSpec {
  import opened Bytes
  import opened ByteStrings
  import opened Common
  import opened Paths
  import opened OciActions

  // ----- one layer over what lies below -----

  /**
    A whiteout hides its target and what is below it, an opaque marker what is below its directory, and an
    entry that is not a directory what is below its path: it replaces a directory that may be there.
   */
  predicate Hides(a: Action, p: Path) {
    match a
    case Remove(t) => t <= p
    case Clear(d) => d < p
    case Put(q, n) => n.kind != Dir && q < p
    case Skip => false
  }

  predicate Names(a: Action, p: Path) { a.Put? && a.path == p }

  ghost predicate NamedIn(layer: seq<Action>, p: Path) {
    exists i {:trigger Names(layer[i], p)} :: 0 <= i < |layer| && Names(layer[i], p)
  }

  ghost predicate HiddenIn(layer: seq<Action>, p: Path) {
    exists i {:trigger Hides(layer[i], p)} :: 0 <= i < |layer| && Hides(layer[i], p)
  }

  ghost predicate CoveredIn(layer: seq<Action>, p: Path) {
    exists i {:trigger Covers(layer[i], p)} :: 0 <= i < |layer| && Covers(layer[i], p)
  }

  /**
    The meaning of a layer: its own last entry for the path, which no whiteout of the layer touches; else
    nothing, if the layer hides the path; else what there is below.
   */
  ghost function Meaning(below: Option<Node>, layer: seq<Action>, p: Path): Option<Node> {
    if NamedIn(layer, p) then LastPut(layer, p) else if HiddenIn(layer, p) then None else below
  }

  /** Entry `i` is the layer's last one for `p`. */
  ghost predicate LastNaming(layer: seq<Action>, p: Path, i: nat) {
    && i < |layer| && Names(layer[i], p)
    && forall j {:trigger Names(layer[j], p)} :: i < j < |layer| ==> !Names(layer[j], p)
  }

  lemma {:induction false} LastPutIsLast(layer: seq<Action>, p: Path, i: nat)
    requires LastNaming(layer, p, i)
    ensures LastPut(layer, p) == Some(layer[i].node)
  {
    var n := |layer| - 1;
    if i < n {
      assert !Names(layer[n], p);
      var before := layer[..n];
      assert Names(before[i], p);
      forall j | i < j < n ensures !Names(before[j], p) { assert !Names(layer[j], p); }
      LastPutIsLast(before, p, i);
    }
  }

  lemma {:induction false} LastNamingUnique(layer: seq<Action>, p: Path, i: nat, j: nat)
    requires LastNaming(layer, p, i) && LastNaming(layer, p, j)
    ensures i == j
  {
    assert Names(layer[i], p) && Names(layer[j], p);
  }

  lemma {:induction false} LastNamingExists(layer: seq<Action>, p: Path) returns (i: nat)
    requires NamedIn(layer, p)
    ensures LastNaming(layer, p, i)
  {
    var n := |layer| - 1;
    if Names(layer[n], p) {
      i := n;
    } else {
      var k :| 0 <= k < |layer| && Names(layer[k], p);
      assert Names(layer[..n][k], p);
      i := LastNamingExists(layer[..n], p);
      forall j | i < j < |layer| ensures !Names(layer[j], p) {
        if j < n { assert !Names(layer[..n][j], p); }
      }
    }
  }

  /** The layer's last entry for the path is followed, in the same layer, by a whiteout or a marker covering it. */
  ghost predicate Undone(layer: seq<Action>, p: Path) {
    exists i: nat, j: nat {:trigger LastNaming(layer, p, i), Covers(layer[j], p)} ::
      LastNaming(layer, p, i) && i < j < |layer| && Covers(layer[j], p)
  }

  /** What the merge overlooks: an opaque marker at the top level, a whiteout of the root, a replaced directory. */
  predicate Overlooked(a: Action) {
    match a
    case Remove(t) => t == []
    case Clear(d) => d == []
    case Put(_, _) => true
    case Skip => false
  }

  /** The path is there below, the layer does not name it, and all that hides it is overlooked. */
  ghost predicate Missed(below: Option<Node>, layer: seq<Action>, p: Path) {
    && below.Some? && p != [] && !NamedIn(layer, p) && HiddenIn(layer, p)
    && forall i {:trigger Hides(layer[i], p)} :: 0 <= i < |layer| && Hides(layer[i], p) ==> Overlooked(layer[i])
  }

  /** What covers a path hides it; what hides it covers it unless it is overlooked. */
  lemma {:induction false} CoversOrOverlooked(a: Action, p: Path)
    ensures Covers(a, p) ==> Hides(a, p)
    ensures Hides(a, p) ==> Covers(a, p) || (Overlooked(a) && p != [])
    ensures Covers(a, p) && p != [] ==> !Overlooked(a)
  {}

  lemma {:induction false} FindOver(before: seq<Action>, layer: seq<Action>, p: Path)
    ensures Find(before + layer, p) ==
            if NamedIn(layer, p) || CoveredIn(layer, p) then Find(layer, p) else Find(before, p)
  {
    if layer == [] {
      assert before + layer == before;
    } else {
      var n := |layer| - 1;
      var rest, a := layer[..n], layer[n];
      assert (before + layer)[..|before| + n] == before + rest;
      FindOver(before, rest, p);
      if !Names(a, p) && !Covers(a, p) {
        if NamedIn(rest, p) {
          var i :| 0 <= i < n && Names(rest[i], p);
          assert Names(layer[i], p);
        } else if CoveredIn(rest, p) {
          var i :| 0 <= i < n && Covers(rest[i], p);
          assert Covers(layer[i], p);
        } else {
          forall i | 0 <= i < |layer| ensures !Names(layer[i], p) && !Covers(layer[i], p) {
            if i < n { assert !Names(rest[i], p) && !Covers(rest[i], p); }
          }
        }
      }
    }
  }

  /** Within a layer that names the path, the merge keeps the last entry exactly if nothing behind it covers it. */
  lemma {:induction false} NamedLayer(layer: seq<Action>, p: Path)
    requires NamedIn(layer, p)
    ensures LastPut(layer, p).Some?
    ensures Find(layer, p) == if Undone(layer, p) then None else LastPut(layer, p)
  {
    var i := LastNamingExists(layer, p);
    LastPutIsLast(layer, p, i);
    if Find(layer, p).Some? {
      var k := FoundSurvives(layer, p);
      assert Names(layer[k], p) && Names(layer[i], p);
      if k < i { assert Settles(layer[i], p); }
      assert k == i;
      forall j: nat, m: nat | LastNaming(layer, p, m) && m < j < |layer| ensures !Covers(layer[j], p) {
        LastNamingUnique(layer, p, i, m);
        assert !Settles(layer[j], p);
      }
      SurvivorIsFound(layer, p, i);
    } else if !Undone(layer, p) {
      forall j | i < j < |layer| ensures !Settles(layer[j], p) {
        assert !Names(layer[j], p);
        assert Covers(layer[j], p) ==> Undone(layer, p);
      }
      SurvivorIsFound(layer, p, i);
    }
  }

  lemma {:induction false} UnnamedLayer(layer: seq<Action>, p: Path)
    requires !NamedIn(layer, p)
    ensures Find(layer, p) == None
  {
    if Find(layer, p).Some? {
      var k := FoundSurvives(layer, p);
      assert Names(layer[k], p);
    }
  }

  /** What a layer does to a path it does not name. */
  lemma {:induction false} HiddenOrCovered(layer: seq<Action>, p: Path)
    requires !NamedIn(layer, p)
    ensures CoveredIn(layer, p) ==> HiddenIn(layer, p)
    ensures CoveredIn(layer, p) || !HiddenIn(layer, p) ==> forall b :: !Missed(b, layer, p)
    ensures !CoveredIn(layer, p) && HiddenIn(layer, p) ==> forall b: Option<Node> :: Missed(b, layer, p) <==> b.Some?
  {
    forall i | 0 <= i < |layer|
      ensures Covers(layer[i], p) ==> Hides(layer[i], p)
      ensures Hides(layer[i], p) ==> Covers(layer[i], p) || (Overlooked(layer[i]) && p != [])
      ensures Covers(layer[i], p) && p != [] ==> !Overlooked(layer[i])
    {
      CoversOrOverlooked(layer[i], p);
    }
    if CoveredIn(layer, p) {
      var i :| 0 <= i < |layer| && Covers(layer[i], p);
      assert Hides(layer[i], p);
    } else if HiddenIn(layer, p) {
      var i :| 0 <= i < |layer| && Hides(layer[i], p);
      assert !Covers(layer[i], p);
    }
  }

  /** What the merge makes of a layer. */
  lemma {:induction false} MergedLayer(before: seq<Action>, layer: seq<Action>, p: Path)
    ensures Find(before + layer, p) ==
            if NamedIn(layer, p) then if Undone(layer, p) then None else LastPut(layer, p)
            else if CoveredIn(layer, p) then None
            else Find(before, p)
    ensures NamedIn(layer, p) ==> LastPut(layer, p).Some?
  {
    FindOver(before, layer, p);
    if NamedIn(layer, p) { NamedLayer(layer, p); } else { UnnamedLayer(layer, p); }
  }

  lemma {:induction false} UndoneIsNamed(layer: seq<Action>, p: Path)
    requires Undone(layer, p)
    ensures NamedIn(layer, p)
  {
    var i: nat, j: nat :| LastNaming(layer, p, i) && i < j < |layer| && Covers(layer[j], p);
    assert Names(layer[i], p);
  }

  /** The merge gives a layer its meaning exactly when it neither undoes its own entry nor misses what it hides. */
  lemma {:induction false} LayerExact(before: seq<Action>, layer: seq<Action>, p: Path)
    ensures Find(before + layer, p) == Meaning(Find(before, p), layer, p) <==>
            !Undone(layer, p) && !Missed(Find(before, p), layer, p)
  {
    MergedLayer(before, layer, p);
    if Undone(layer, p) { UndoneIsNamed(layer, p); }
    if !NamedIn(layer, p) { HiddenOrCovered(layer, p); }
  }

  // ----- the ways to fail, at tar entries -----

  const FILE_A := TarEntry(Named([[97]]), TypeReg, Attrs(0, 0, 0x81a4, 0, 0), 1, 512)
  const WHITEOUT_A := TarEntry(Named([WHITEOUT + [97]]), TypeReg, Attrs(0, 0, 0, 0, 0), 0, 1536)
  const TOP_MARKER := TarEntry(Named([OPAQUE]), TypeReg, Attrs(0, 0, 0, 0, 0), 0, 512)
  const DIR_A := TarEntry(Named([[97]]), TypeDir, Attrs(0, 0, DIR_MODE, 0, 0), 0, 512)
  const FILE_AB := TarEntry(Named([[97], [98]]), TypeReg, Attrs(0, 0, 0x81a4, 0, 0), 1, 1024)
  const NODE_AB := Node(File, FILE_AB.attrs, 1, [108], 1024, [])
  const NODE_A := Node(File, FILE_A.attrs, 1, [108], 512, [])

  lemma {:induction false} OneEntry(before: seq<Action>, e: TarEntry)
    requires !e.typ.TypeLink?
    ensures LayerActions(before, [108], [e]) ==
            if ActionOf(e, [108], None).None? then None else Some([ActionOf(e, [108], None).value])
  {
    assert [e][..0] == [];
    assert forall a: Action :: [] + [a] == [a];
  }

  lemma {:induction false} OneAction(a: Action, p: Path)
    ensures Find([a], p) == if Names(a, p) then Some(a.node) else None
  {
    assert [a][..0] == [];
  }

  lemma {:induction false} WhiteoutOfA()
    ensures ActionOf(WHITEOUT_A, [108], None) == Some(Remove([[97]]))
  {
    var name: Name := WHITEOUT + [97];
    assert name[4..] == [97] && WHITEOUT <= name && |name| == 5;
    var p: Path := [name];
    assert p[..0] == [] && WHITEOUT_A.name == Named(p) && name != OPAQUE;
    var none: Path := [];
    assert none + [[97]] == [[97]] && Resolve(none, [97]) == [[97]];
  }

  /** The merge drops an entry with its own layer's whiteout behind it, which the layer is to keep. */
  lemma {:induction false} WhiteoutBehindEntry(p: Path, n: Node)
    ensures var layer := [Put(p, n), Remove(p)];
            Find([] + layer, p) == None && Meaning(Find([], p), layer, p) == Some(n)
  {
    var layer := [Put(p, n), Remove(p)];
    assert Names(layer[0], p) && !Names(layer[1], p) && Covers(layer[1], p);
    assert LastNaming(layer, p, 0);
    LastPutIsLast(layer, p, 0);
    MergedLayer([], layer, p);
  }

  /** A layer that holds a file and then its whiteout: the file is gone, though the layer is to keep it. */
  lemma {:induction false} OwnWhiteoutRemoves()
    ensures var layer := [Put([[97]], NODE_A), Remove([[97]])];
            && LayerActions([], [108], [FILE_A, WHITEOUT_A]) == Some(layer)
            && Find([] + layer, [[97]]) == None && Meaning(Find([], [[97]]), layer, [[97]]) == Some(NODE_A)
  {
    WhiteoutBehindEntry([[97]], NODE_A);
    WhiteoutOfA();
    OneEntry([], FILE_A);
    var es := [FILE_A, WHITEOUT_A];
    assert es[..1] == [FILE_A];
    assert [Put([[97]], NODE_A)] + [Remove([[97]])] == [Put([[97]], NODE_A), Remove([[97]])];
  }

  /** A layer with an opaque marker at the top level over a file: the file stays, though the layer is to hide it. */
  lemma {:induction false} TopMarkerRemovesNothing()
    ensures var below, layer := [Put([[97]], NODE_A)], [Clear([])];
            && LayerActions([], [108], [FILE_A]) == Some(below)
            && LayerActions(below, [108], [TOP_MARKER]) == Some(layer)
            && Find(below + layer, [[97]]) == Some(NODE_A) && Meaning(Find(below, [[97]]), layer, [[97]]) == None
  {
    var p: Path := [[97]];
    var below, layer := [Put(p, NODE_A)], [Clear([])];
    OneEntry([], FILE_A);
    OneEntry(below, TOP_MARKER);
    assert [OPAQUE][..0] == [];
    assert Hides(layer[0], p) && !Names(layer[0], p) && !Covers(layer[0], p);
    OneAction(below[0], p);
    MergedLayer(below, layer, p);
  }

  /** A file over a directory: what was in the directory stays, though the file is to replace it. */
  lemma {:induction false} ReplacedDirectoryStays()
    ensures var below := [Put([[97]], Node(Dir, DIR_A.attrs, 0, [], 0, [])), Put([[97], [98]], NODE_AB)];
            var layer, p := [Put([[97]], NODE_A)], [[97], [98]];
            && LayerActions([], [108], [DIR_A, FILE_AB]) == Some(below)
            && LayerActions(below, [108], [FILE_A]) == Some(layer)
            && Find(below + layer, p) == Some(NODE_AB) && Meaning(Find(below, p), layer, p) == None
  {
    var p: Path := [[97], [98]];
    var dir := Put([[97]], Node(Dir, DIR_A.attrs, 0, [], 0, []));
    var below, layer := [dir, Put(p, NODE_AB)], [Put([[97]], NODE_A)];
    var es := [DIR_A, FILE_AB];
    assert es[..1] == [DIR_A] && [dir] + [Put(p, NODE_AB)] == below;
    OneEntry([], DIR_A);
    OneEntry(below, FILE_A);
    assert p[0] == [97] && layer[0].path < p;
    assert Hides(layer[0], p) && !Names(layer[0], p) && !Covers(layer[0], p);
    assert Names(below[1], p);
    MergedLayer(below, layer, p);
  }

  // ----- lists of layers -----

  function Flat(layers: seq<seq<Action>>): seq<Action> {
    if layers == [] then [] else Flat(layers[..|layers| - 1]) + layers[|layers| - 1]
  }

  /** The meaning of a list of layers, each over those before it. */
  ghost function MeaningOfAll(layers: seq<seq<Action>>, p: Path): Option<Node> {
    if layers == [] then None
    else Meaning(MeaningOfAll(layers[..|layers| - 1], p), layers[|layers| - 1], p)
  }

  ghost predicate Touches(layer: seq<Action>, p: Path) { NamedIn(layer, p) || HiddenIn(layer, p) }

  /** Layer `k` undoes its own entry for the path, and no later layer has to do with the path. */
  ghost predicate LeftUndone(layers: seq<seq<Action>>, p: Path, k: nat) {
    && k < |layers| && Undone(layers[k], p)
    && forall j {:trigger Touches(layers[j], p)} :: k < j < |layers| ==> !Touches(layers[j], p)
  }

  ghost predicate SettledIn(layer: seq<Action>, p: Path) { NamedIn(layer, p) || CoveredIn(layer, p) }

  /** Layer `k` misses the path, and no later layer names or covers it. */
  ghost predicate LeftShowing(layers: seq<seq<Action>>, p: Path, k: nat) {
    && k < |layers| && Missed(Find(Flat(layers[..k]), p), layers[k], p)
    && forall j {:trigger SettledIn(layers[j], p)} :: k < j < |layers| ==> !SettledIn(layers[j], p)
  }

  ghost predicate GoesWrong(layers: seq<seq<Action>>, p: Path) {
    exists k: nat {:trigger LeftUndone(layers, p, k)} {:trigger LeftShowing(layers, p, k)} ::
      LeftUndone(layers, p, k) || LeftShowing(layers, p, k)
  }

  /** A path that a layer has missed is still found. */
  lemma {:induction false} ShowingIsFound(layers: seq<seq<Action>>, p: Path, k: nat)
    requires LeftShowing(layers, p, k)
    ensures Find(Flat(layers), p).Some?
  {
    var n := |layers| - 1;
    var rest := layers[..n];
    MergedLayer(Flat(rest), layers[n], p);
    if k == n {
      HiddenOrCovered(layers[n], p);
    } else {
      assert !SettledIn(layers[n], p);
      assert rest[..k] == layers[..k];
      forall j | k < j < n ensures !SettledIn(rest[j], p) { assert !SettledIn(layers[j], p); }
      ShowingIsFound(rest, p, k);
    }
  }

  /** A layer on top that leaves a path alone changes nothing about where it went wrong. */
  lemma {:induction false} WrongBelow(layers: seq<seq<Action>>, p: Path, k: nat)
    requires |layers| > 0 && k < |layers| - 1
    ensures var n := |layers| - 1;
            && (LeftUndone(layers, p, k) <==> LeftUndone(layers[..n], p, k) && !Touches(layers[n], p))
            && (LeftShowing(layers, p, k) <==> LeftShowing(layers[..n], p, k) && !SettledIn(layers[n], p))
  {
    var n := |layers| - 1;
    var rest := layers[..n];
    assert rest[..k] == layers[..k] && rest[k] == layers[k];
    assert forall j :: k < j < n ==> rest[j] == layers[j];
    assert LeftUndone(layers, p, k) ==> !Touches(layers[n], p);
    assert LeftShowing(layers, p, k) ==> !SettledIn(layers[n], p);
    if LeftUndone(layers, p, k) {
      forall j | k < j < n ensures !Touches(rest[j], p) { assert !Touches(layers[j], p); }
    }
    if LeftShowing(layers, p, k) {
      forall j | k < j < n ensures !SettledIn(rest[j], p) { assert !SettledIn(layers[j], p); }
    }
    if LeftUndone(rest, p, k) && !Touches(layers[n], p) {
      forall j | k < j < |layers| ensures !Touches(layers[j], p) { if j < n { assert !Touches(rest[j], p); } }
    }
    if LeftShowing(rest, p, k) && !SettledIn(layers[n], p) {
      forall j | k < j < |layers| ensures !SettledIn(layers[j], p) { if j < n { assert !SettledIn(rest[j], p); } }
    }
  }

  lemma {:induction false} WrongOnTop(layers: seq<seq<Action>>, p: Path)
    requires |layers| > 0
    ensures var n, top := |layers| - 1, layers[|layers| - 1];
            GoesWrong(layers, p) <==>
              || Undone(top, p) || Missed(Find(Flat(layers[..n]), p), top, p)
              || (exists k: nat :: k < n && LeftUndone(layers[..n], p, k) && !Touches(top, p))
              || (exists k: nat :: k < n && LeftShowing(layers[..n], p, k) && !SettledIn(top, p))
  {
    var n, top := |layers| - 1, layers[|layers| - 1];
    forall k: nat | k < n
      ensures LeftUndone(layers, p, k) <==> LeftUndone(layers[..n], p, k) && !Touches(top, p)
      ensures LeftShowing(layers, p, k) <==> LeftShowing(layers[..n], p, k) && !SettledIn(top, p)
    {
      WrongBelow(layers, p, k);
    }
    assert LeftUndone(layers, p, n) <==> Undone(top, p);
    assert LeftShowing(layers, p, n) <==> Missed(Find(Flat(layers[..n]), p), top, p);
    if GoesWrong(layers, p) {
      var k: nat :| LeftUndone(layers, p, k) || LeftShowing(layers, p, k);
      assert k == n || k < n;
    }
  }

  /**
    For every list of layers and every path, the merge gives the path its meaning exactly when it does not
    go wrong: no layer undoes its own entry or misses what it hides, with nothing later to make up for it.
   */
  lemma {:induction false} ImageExact(layers: seq<seq<Action>>, p: Path)
    ensures Find(Flat(layers), p) == MeaningOfAll(layers, p) <==> !GoesWrong(layers, p)
  {
    if layers != [] {
      var n := |layers| - 1;
      var rest, top := layers[..n], layers[n];
      ImageExact(rest, p);
      WrongOnTop(layers, p);
      MergedLayer(Flat(rest), top, p);
      if Undone(top, p) { UndoneIsNamed(top, p); }
      if !NamedIn(top, p) { HiddenOrCovered(top, p); }
      if !NamedIn(top, p) && !CoveredIn(top, p) && HiddenIn(top, p) {
        forall k: nat | k < n && LeftShowing(rest, p, k) ensures Find(Flat(rest), p).Some? {
          ShowingIsFound(rest, p, k);
        }
      }
    }
  }

  /** The actions of an image layer by layer, over an index that holds just the root. */
  function ImageLayers(layers: seq<Layer>): Option<seq<seq<Action>>> {
    if layers == [] then Some([[Put([], DEFAULT_DIR)]])
    else
      var r, l := ImageLayers(layers[..|layers| - 1]), layers[|layers| - 1];
      if r.None? then None
      else
        var a := LayerActions(Flat(r.value), l.tarRef, l.entries);
        if a.None? then None else Some(r.value + [a.value])
  }

  lemma {:induction false} FlatOne(layer: seq<Action>)
    ensures Flat([layer]) == layer
  {
    assert [layer][..0] == [];
    assert Flat([layer]) == [] + layer;
  }

  lemma {:induction false} LayersAreActions(layers: seq<Layer>)
    ensures ImageActions(layers) == if ImageLayers(layers).None? then None else Some(Flat(ImageLayers(layers).value))
  {
    if layers == [] {
      FlatOne([Put([], DEFAULT_DIR)]);
    } else {
      var n := |layers| - 1;
      LayersAreActions(layers[..n]);
      var r := ImageLayers(layers[..n]);
      if r.Some? && ImageLayers(layers).Some? {
        var a := LayerActions(Flat(r.value), layers[n].tarRef, layers[n].entries).value;
        assert (r.value + [a])[..|r.value|] == r.value;
      }
    }
  }

  /** So for the layers of an image: what the merged index has at a path is what layer.md says, exactly then. */
  lemma {:induction false} MergeMeetsSpec(layers: seq<Layer>, merged: map<Path, Node>, p: Path)
    requires ImageActions(layers).Some? && Shows(merged, ImageActions(layers).value)
    ensures ImageLayers(layers).Some?
    ensures (if p in merged then Some(merged[p]) else None) == MeaningOfAll(ImageLayers(layers).value, p) <==>
            !GoesWrong(ImageLayers(layers).value, p)
  {
    LayersAreActions(layers);
    ImageExact(ImageLayers(layers).value, p);
  }
}
