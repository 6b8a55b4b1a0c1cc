/** What a receiver has handed over after any run of segments that a stream was cut into. */
module TcpReassembly {
  import opened Bytes
  import opened Common
  import opened TcpReceive
  import opened TcpSegments
  import opened TcpSeq

  /** Where cell `k` starts in the stream. */
  function Cut(cells: seq<Segment>, k: nat): nat
    requires k <= |cells|
  {
    |Join(cells[..k])|
  }

  /** The stream is cut into the cells. */
  ghost predicate Tiled(cells: seq<Segment>, stream: seq<byte>, isn: u32) {
    && Join(cells) == stream && |stream| < HALF
    && forall k {:trigger cells[k]} :: 0 <= k < |cells| ==> SliceAt(cells[k], stream, isn, Cut(cells, k))
  }

  lemma {:induction false} NextCut(cells: seq<Segment>, k: nat)
    requires k < |cells|
    ensures Cut(cells, k + 1) == Cut(cells, k) + |cells[k].payload|
  {
    TakeNext(cells, k);
    JoinNext(cells[..k], cells[k]);
  }

  lemma {:induction false} CutsGrow(cells: seq<Segment>, stream: seq<byte>, isn: u32, j: nat, k: nat)
    requires Tiled(cells, stream, isn) && j <= k <= |cells|
    ensures Cut(cells, j) <= Cut(cells, k) <= |stream| && (j < k ==> Cut(cells, j + 1) <= Cut(cells, k))
    ensures j < k ==> Cut(cells, j) < Cut(cells, k)
    decreases |cells| - j
  {
    if j < k {
      assert cells[j].payload != [];
      NextCut(cells, j);
      CutsGrow(cells, stream, isn, j + 1, k);
    } else if k < |cells| {
      assert cells[k].payload != [];
      NextCut(cells, k);
      CutsGrow(cells, stream, isn, k + 1, |cells|);
      CutsGrow(cells, stream, isn, k + 1, k + 1);
    } else {
      assert cells[..k] == cells;
    }
  }

  /** Numbers of one window compare as their offsets do. */
  lemma {:induction false} NumbersCompare(isn: u32, m: nat, n: nat)
    requires m < HALF && n < HALF
    ensures Add32(isn, m) == Add32(isn, n) <==> m == n
    ensures SeqGT(Add32(isn, m), Add32(isn, n)) <==> m > n
  {
    OffsetAdd(isn, m, isn);
    OffsetAdd(isn, n, isn);
  }

  lemma {:induction false} CutInWindow(cells: seq<Segment>, stream: seq<byte>, isn: u32, k: nat)
    requires Tiled(cells, stream, isn) && k <= |cells|
    ensures Cut(cells, k) < HALF
  {
    CutsGrow(cells, stream, isn, k, k);
  }

  lemma {:induction false} CutsCompare(cells: seq<Segment>, stream: seq<byte>, isn: u32, j: nat, k: nat)
    requires Tiled(cells, stream, isn) && j <= |cells| && k <= |cells|
    ensures Cut(cells, j) < Cut(cells, k) <==> j < k
    ensures Cut(cells, j) == Cut(cells, k) <==> j == k
  {
    if j < k { CutsGrow(cells, stream, isn, j, k); } else if k < j { CutsGrow(cells, stream, isn, k, j); }
  }

  /** A cell starts at the number of its cut, and at no other; it lies ahead of the cuts before it. */
  lemma {:induction false} CellStarts(cells: seq<Segment>, stream: seq<byte>, isn: u32, k: nat, d: nat, next: u32)
    requires Tiled(cells, stream, isn) && k < |cells| && d <= |cells| && next == Add32(isn, Cut(cells, d))
    ensures cells[k].seqStart == next <==> k == d
    ensures SeqGT(cells[k].seqStart, next) <==> k > d
    ensures cells[k].seqEnd == Add32(isn, Cut(cells, k + 1))
  {
    assert SliceAt(cells[k], stream, isn, Cut(cells, k));
    NextCut(cells, k);
    CutInWindow(cells, stream, isn, k);
    CutInWindow(cells, stream, isn, d);
    CutsCompare(cells, stream, isn, d, k);
    NumbersCompare(isn, Cut(cells, k), Cut(cells, d));
  }

  predicate IsCell(s: Segment, cells: seq<Segment>, d: nat, k: nat) { d <= k < |cells| && cells[k] == s }

  /** The segment is a cell, `d` or a later one. */
  ghost predicate From(s: Segment, cells: seq<Segment>, d: nat) { exists k: nat :: IsCell(s, cells, d, k) }

  ghost predicate AllFrom(segments: seq<Segment>, cells: seq<Segment>, d: nat) {
    forall s :: s in segments ==> From(s, cells, d)
  }

  /** The segment is a cell before `d`. */
  ghost predicate Passed(s: Segment, cells: seq<Segment>, d: nat) {
    exists k: nat :: k < d && IsCell(s, cells, 0, k)
  }

  // ----- collecting cells -----

  /** The pass has gone from cut `d` to cut `e`: it took the cells between them, and kept the others. */
  ghost predicate Reaches(p: Pass, segments: seq<Segment>, cells: seq<Segment>, isn: u32, d: nat, e: nat) {
    && d <= e <= |cells| && p.next == Add32(isn, Cut(cells, e)) && p.taken == cells[d..e]
    && (forall s :: s in segments ==> s in p.kept || Passed(s, cells, e))
    && (forall s :: s in p.kept ==> s in segments)
    && (forall s :: s in cells[d..e] ==> s in segments)
  }

  lemma {:induction false} PassedFurther(s: Segment, cells: seq<Segment>, d: nat, e: nat)
    requires d <= e
    ensures Passed(s, cells, d) ==> Passed(s, cells, e)
  {
    if Passed(s, cells, d) {
      var k: nat :| k < d && IsCell(s, cells, 0, k);
      assert k < e;
    }
  }

  lemma {:induction false} StepTakes(p: Pass, segments: seq<Segment>, cells: seq<Segment>, stream: seq<byte>, isn: u32,
                                     d: nat, e: nat)
    requires Tiled(cells, stream, isn) && Reaches(p, segments, cells, isn, d, e) && e < |cells|
    ensures Reaches(p.Step(cells[e]), segments + [cells[e]], cells, isn, d, e + 1)
  {
    var s := cells[e];
    CellStarts(cells, stream, isn, e, e, p.next);
    assert cells[d..e + 1] == cells[d..e] + [s];
    assert IsCell(s, cells, 0, e);
    forall x | x in segments && x !in p.kept ensures Passed(x, cells, e + 1) { PassedFurther(x, cells, e, e + 1); }
  }

  lemma {:induction false} StepReaches(p: Pass, segments: seq<Segment>, s: Segment, cells: seq<Segment>,
                                       stream: seq<byte>, isn: u32, d: nat, e: nat)
    returns (e': nat)
    requires Tiled(cells, stream, isn) && Reaches(p, segments, cells, isn, d, e) && From(s, cells, 0)
    ensures Reaches(p.Step(s), segments + [s], cells, isn, d, e')
  {
    var k: nat :| IsCell(s, cells, 0, k);
    CellStarts(cells, stream, isn, k, e, p.next);
    if k == e {
      StepTakes(p, segments, cells, stream, isn, d, e);
      e' := e + 1;
    } else {
      e' := e;
    }
  }

  lemma {:induction false} PassReaches(segments: seq<Segment>, cells: seq<Segment>, stream: seq<byte>, isn: u32, d: nat)
    returns (e: nat)
    requires Tiled(cells, stream, isn) && d <= |cells| && AllFrom(segments, cells, 0)
    ensures Reaches(OnePass(segments, Add32(isn, Cut(cells, d))), segments, cells, isn, d, e)
  {
    e := d;
    if segments != [] {
      var n := |segments| - 1;
      e := PassReaches(segments[..n], cells, stream, isn, d);
      var p := OnePass(segments[..n], Add32(isn, Cut(cells, d)));
      assert segments == segments[..n] + [segments[n]];
      e := StepReaches(p, segments[..n], segments[n], cells, stream, isn, d, e);
    }
  }

  lemma {:induction false} ReachesFurther(p: Pass, q: Pass, segments: seq<Segment>, cells: seq<Segment>, isn: u32,
                                          d: nat, e: nat, f: nat)
    requires Reaches(p, segments, cells, isn, d, e) && Reaches(q, p.kept, cells, isn, e, f)
    ensures Reaches(p.Then(q), segments, cells, isn, d, f)
  {
    assert cells[d..e] + cells[e..f] == cells[d..f];
    forall s | s in segments && s !in q.kept ensures Passed(s, cells, f) {
      if s !in p.kept { PassedFurther(s, cells, e, f); }
    }
  }

  lemma {:induction false} CollectReaches(segments: seq<Segment>, cells: seq<Segment>, stream: seq<byte>, isn: u32,
                                          d: nat)
    returns (e: nat)
    requires Tiled(cells, stream, isn) && d <= |cells| && AllFrom(segments, cells, 0)
    ensures Reaches(Collect(segments, Add32(isn, Cut(cells, d))), segments, cells, isn, d, e)
    decreases |segments|
  {
    var next := Add32(isn, Cut(cells, d));
    var p := OnePass(segments, next);
    PassCounts(segments, next);
    e := PassReaches(segments, cells, stream, isn, d);
    if p.taken != [] {
      var f := CollectReaches(p.kept, cells, stream, isn, e);
      ReachesFurther(p, Collect(p.kept, p.next), segments, cells, isn, d, e, f);
      e := f;
    }
  }

  // ----- a run over cells -----

  lemma {:induction false} DistinctCount(held: seq<Segment>, isn: u32)
    requires Ordered(held, isn)
    ensures |set s | s in held| == |held|
  {
    if held != [] {
      var n := |held| - 1;
      var front, last := held[..n], held[n];
      forall i, j {:trigger Before(front[i], front[j], isn)} | 0 <= i < j < n ensures Before(front[i], front[j], isn) {
        assert Before(held[i], held[j], isn);
      }
      DistinctCount(front, isn);
      forall i | 0 <= i < n ensures front[i] != last { assert Before(held[i], held[n], isn); }
      assert (set s | s in held) == (set s | s in front) + {last};
    }
  }

  lemma {:induction false} CountAtMost(cells: seq<Segment>)
    ensures |set s | s in cells| <= |cells|
  {
    if cells != [] {
      var n := |cells| - 1;
      CountAtMost(cells[..n]);
      assert (set s | s in cells) == (set s | s in cells[..n]) + {cells[n]};
    }
  }

  /** A cell that is not buffered finds the buffer short of the number of cells. */
  lemma {:induction false} HeldFits(held: seq<Segment>, cells: seq<Segment>, s: Segment, isn: u32)
    requires Ordered(held, isn) && AllFrom(held, cells, 0) && From(s, cells, 0) && s !in held
    ensures |held| < |cells|
  {
    DistinctCount(held, isn);
    CountAtMost(cells);
    var h, c := set x | x in held, set x | x in cells;
    forall x | x in held ensures x in cells { assert From(x, cells, 0); }
    assert h + {s} <= c && c == (h + {s}) + (c - (h + {s}));
  }

  lemma {:induction false} CellBefore(cells: seq<Segment>, stream: seq<byte>, isn: u32, j: nat, k: nat)
    requires Tiled(cells, stream, isn) && j < k < |cells|
    ensures Before(cells[j], cells[k], isn)
  {
    assert SliceAt(cells[j], stream, isn, Cut(cells, j)) && SliceAt(cells[k], stream, isn, Cut(cells, k));
    NextCut(cells, j);
    CutsGrow(cells, stream, isn, j, k);
    CutInWindow(cells, stream, isn, j);
    CutInWindow(cells, stream, isn, k);
    OffsetAdd(isn, Cut(cells, j), isn);
    OffsetAdd(isn, Cut(cells, k), isn);
  }

  lemma {:induction false} CellsApart(cells: seq<Segment>, stream: seq<byte>, isn: u32, j: nat, k: nat)
    requires Tiled(cells, stream, isn) && j < |cells| && k < |cells| && j != k
    ensures InWindow(cells[j], isn) && InWindow(cells[k], isn)
    ensures !SeqOverlap(cells[j].seqStart, cells[j].seqEnd, cells[k].seqStart, cells[k].seqEnd)
  {
    assert SliceAt(cells[j], stream, isn, Cut(cells, j)) && SliceAt(cells[k], stream, isn, Cut(cells, k));
    SliceInWindow(cells[j], stream, isn);
    SliceInWindow(cells[k], stream, isn);
    OverlapInWindow(cells[j], cells[k], isn);
    CellBefore(cells, stream, isn, Min(j, k), Max(j, k));
  }

  /** A cell that is not buffered overlaps nothing that is. */
  lemma {:induction false} HeldApart(held: seq<Segment>, cells: seq<Segment>, stream: seq<byte>, isn: u32, k: nat)
    requires Tiled(cells, stream, isn) && AllFrom(held, cells, 0) && k < |cells| && cells[k] !in held
    ensures OverlapsNone(held, cells[k])
  {
    forall i | 0 <= i < |held|
      ensures !SeqOverlap(cells[k].seqStart, cells[k].seqEnd, held[i].seqStart, held[i].seqEnd)
    {
      assert From(held[i], cells, 0);
      var j: nat :| IsCell(held[i], cells, 0, j);
      CellsApart(cells, stream, isn, k, j);
    }
  }

  /** A cell that is buffered already is refused. */
  lemma {:induction false} HeldOverlaps(held: seq<Segment>, s: Segment, isn: u32)
    requires Ordered(held, isn) && s in held
    ensures !OverlapsNone(held, s)
  {
    var i :| 0 <= i < |held| && held[i] == s;
    OverlapInWindow(s, held[i], isn);
  }

  lemma {:induction false} SpotExists(held: seq<Segment>, s: Segment) returns (k: nat)
    ensures IsSpot(held, s, k)
  {
    k := 0;
    while k < |held| && !SeqLT(s.seqStart, held[k].seqStart)
      invariant k <= |held| && forall j :: 0 <= j < k ==> !SeqLT(s.seqStart, held[j].seqStart)
    {
      k := k + 1;
    }
  }

  /** Putting a cell in keeps the order, and adds just that cell. */
  lemma {:induction false} PutInCell(held: seq<Segment>, cells: seq<Segment>, stream: seq<byte>, isn: u32, k: nat)
    requires Tiled(cells, stream, isn) && AllFrom(held, cells, 0) && Ordered(held, isn)
    requires k < |cells| && cells[k] !in held
    ensures Ordered(PutIn(held, cells[k]), isn)
    ensures forall s :: s in PutIn(held, cells[k]) <==> s in held || s == cells[k]
  {
    var at := SpotExists(held, cells[k]);
    PutInAtSpot(held, cells[k], at);
    HeldApart(held, cells, stream, isn, k);
    assert SliceAt(cells[k], stream, isn, Cut(cells, k));
    SliceInWindow(cells[k], stream, isn);
    InsertKeepsOrder(held, cells[k], at, isn);
    assert held == held[..at] + held[at..];
  }

  /** The buffer: cells in order, none of them the one expected next. */
  ghost predicate Buffered(held: seq<Segment>, cells: seq<Segment>, isn: u32, next: u32) {
    Ordered(held, isn) && AllFrom(held, cells, 0) && NoneAt(held, next)
  }

  /** The cells seen so far are those before `d` and those buffered. */
  ghost predicate Accounted(held: seq<Segment>, seen: seq<Segment>, cells: seq<Segment>, d: nat)
    requires d <= |cells|
  {
    && (forall s :: s in held ==> s in seen) && (forall s :: s in cells[..d] ==> s in seen)
    && (forall s :: s in seen ==> s in held || Passed(s, cells, d))
  }

  /** Of the cells seen so far, those before `d` were handed over in order, and the others are buffered. */
  ghost predicate Stands(r: Progress, seen: seq<Segment>, cells: seq<Segment>, isn: u32, d: nat) {
    && d <= |cells| && r.next == Add32(isn, Cut(cells, d)) && r.out == cells[..d]
    && Buffered(r.held, cells, isn, r.next) && Accounted(r.held, seen, cells, d)
  }

  lemma {:induction false} CellsUpTo(cells: seq<Segment>, d: nat, e: nat)
    requires d < e <= |cells|
    ensures cells[..d] + ([cells[d]] + cells[d + 1..e]) == cells[..e]
  {}

  lemma {:induction false} CollectedBuffer(held: seq<Segment>, cells: seq<Segment>, isn: u32, next: u32, d: nat, e: nat)
    requires Ordered(held, isn) && AllFrom(held, cells, 0)
    requires Reaches(Collect(held, next), held, cells, isn, d, e)
    ensures var p := Collect(held, next); Buffered(p.kept, cells, isn, p.next)
  {
    CollectKeepsOrder(held, next, isn);
    CollectIsComplete(held, next);
  }

  lemma {:induction false} CollectedAccount(p: Pass, held: seq<Segment>, seen: seq<Segment>, cells: seq<Segment>,
                                            isn: u32, d: nat, e: nat)
    requires d < |cells| && Accounted(held, seen, cells, d) && Reaches(p, held, cells, isn, d + 1, e)
    ensures Accounted(p.kept, seen + [cells[d]], cells, e)
  {
    var s := cells[d];
    CellsUpTo(cells, d, e);
    assert IsCell(s, cells, 0, d);
    forall x | x in seen + [s] && x !in p.kept ensures Passed(x, cells, e) {
      if x != s && x !in held { PassedFurther(x, cells, d, e); }
    }
  }

  lemma {:induction false} NextCellStands(r: Progress, seen: seq<Segment>, cells: seq<Segment>, stream: seq<byte>,
                                          isn: u32, d: nat, maxGaps: nat)
    returns (e: nat)
    requires Tiled(cells, stream, isn) && Stands(r, seen, cells, isn, d) && d < |cells|
    ensures Stands(Receive(r, cells[d], maxGaps), seen + [cells[d]], cells, isn, e)
  {
    var s := cells[d];
    CellStarts(cells, stream, isn, d, d, r.next);
    e := CollectReaches(r.held, cells, stream, isn, d + 1);
    CollectedBuffer(r.held, cells, isn, s.seqEnd, d + 1, e);
    CollectedAccount(Collect(r.held, s.seqEnd), r.held, seen, cells, isn, d, e);
    CellsUpTo(cells, d, e);
  }

  lemma {:induction false} PutInBuffer(held: seq<Segment>, cells: seq<Segment>, stream: seq<byte>, isn: u32, next: u32,
                                       k: nat)
    requires Tiled(cells, stream, isn) && Buffered(held, cells, isn, next) && k < |cells| && cells[k] !in held
    requires cells[k].seqStart != next
    ensures Buffered(PutIn(held, cells[k]), cells, isn, next)
    ensures forall s :: s in PutIn(held, cells[k]) <==> s in held || s == cells[k]
  {
    var s, held' := cells[k], PutIn(held, cells[k]);
    PutInCell(held, cells, stream, isn, k);
    assert IsCell(s, cells, 0, k);
    forall i | 0 <= i < |held'| ensures held'[i].seqStart != next {
      if held'[i] != s { assert held'[i] in held; }
    }
  }

  /** What becomes of a cell that is not the next: buffered once if it lies ahead, else dropped. */
  lemma {:induction false} OtherCell(r: Progress, cells: seq<Segment>, stream: seq<byte>, isn: u32, d: nat, k: nat,
                                     maxGaps: nat)
    requires Tiled(cells, stream, isn) && Buffered(r.held, cells, isn, r.next) && |cells| <= maxGaps
    requires k < |cells| && d <= |cells| && k != d && r.next == Add32(isn, Cut(cells, d))
    ensures Receive(r, cells[k], maxGaps) ==
            if k < d || cells[k] in r.held then r else r.(held := PutIn(r.held, cells[k]))
    ensures cells[k].seqStart != r.next
  {
    CellStarts(cells, stream, isn, k, d, r.next);
    assert IsCell(cells[k], cells, 0, k);
    if cells[k] in r.held {
      HeldOverlaps(r.held, cells[k], isn);
    } else {
      HeldFits(r.held, cells, cells[k], isn);
      HeldApart(r.held, cells, stream, isn, k);
    }
  }

  lemma {:induction false} AheadStands(r: Progress, seen: seq<Segment>, cells: seq<Segment>, stream: seq<byte>,
                                       isn: u32, d: nat, k: nat, maxGaps: nat)
    requires Tiled(cells, stream, isn) && Stands(r, seen, cells, isn, d) && k < |cells| && k != d
    requires |cells| <= maxGaps
    ensures Stands(Receive(r, cells[k], maxGaps), seen + [cells[k]], cells, isn, d)
  {
    OtherCell(r, cells, stream, isn, d, k, maxGaps);
    assert IsCell(cells[k], cells, 0, k);
    if k > d && cells[k] !in r.held { PutInBuffer(r.held, cells, stream, isn, r.next, k); }
  }

  lemma {:induction false} MissingIsNotSeen(r: Progress, seen: seq<Segment>, cells: seq<Segment>, stream: seq<byte>,
                                            isn: u32, d: nat)
    requires Tiled(cells, stream, isn) && Stands(r, seen, cells, isn, d)
    ensures (forall k :: 0 <= k < d ==> cells[k] in seen) && (d < |cells| ==> cells[d] !in seen)
  {
    forall k | 0 <= k < d ensures cells[k] in seen { assert cells[k] == cells[..d][k]; }
    if d < |cells| {
      CellStarts(cells, stream, isn, d, d, r.next);
      assert cells[d] !in r.held;
      forall k: nat | k < d ensures !IsCell(cells[d], cells, 0, k) { CellStarts(cells, stream, isn, k, d, r.next); }
    }
  }

  lemma {:induction false} OneMoreStands(r: Progress, seen: seq<Segment>, s: Segment, cells: seq<Segment>,
                                         stream: seq<byte>, isn: u32, d: nat, maxGaps: nat)
    returns (e: nat)
    requires Tiled(cells, stream, isn) && Stands(r, seen, cells, isn, d) && s in cells && |cells| <= maxGaps
    ensures Stands(Receive(r, s, maxGaps), seen + [s], cells, isn, e)
  {
    var k :| 0 <= k < |cells| && cells[k] == s;
    e := d;
    if k == d {
      e := NextCellStands(r, seen, cells, stream, isn, d, maxGaps);
    } else {
      AheadStands(r, seen, cells, stream, isn, d, k, maxGaps);
    }
  }

  lemma {:induction false} RunStands(ss: seq<Segment>, cells: seq<Segment>, stream: seq<byte>, isn: u32, maxGaps: nat)
    returns (d: nat)
    requires Tiled(cells, stream, isn) && |cells| <= maxGaps && forall s :: s in ss ==> s in cells
    ensures Stands(ReceiveAll(Progress(isn, [], []), ss, maxGaps), ss, cells, isn, d)
  {
    if ss == [] {
      d := 0;
      assert Cut(cells, 0) == 0 && Add32(isn, 0) == isn;
    } else {
      var n := |ss| - 1;
      d := RunStands(ss[..n], cells, stream, isn, maxGaps);
      assert ss == ss[..n] + [ss[n]];
      d := OneMoreStands(ReceiveAll(Progress(isn, [], []), ss[..n], maxGaps), ss[..n], ss[n], cells, stream, isn, d,
                         maxGaps);
    }
  }

  /**
    Whatever the order in which cells arrive, and however often: exactly the cells before the first one that is
    still missing have been handed over, in order.
   */
  lemma {:induction false} DeliversUpToMissing(ss: seq<Segment>, cells: seq<Segment>, stream: seq<byte>, isn: u32,
                                               maxGaps: nat)
    returns (d: nat)
    requires Tiled(cells, stream, isn) && |cells| <= maxGaps && forall s :: s in ss ==> s in cells
    ensures d <= |cells| && (forall k :: 0 <= k < d ==> cells[k] in ss) && (d < |cells| ==> cells[d] !in ss)
    ensures ReceiveAll(Progress(isn, [], []), ss, maxGaps).out == cells[..d]
  {
    d := RunStands(ss, cells, stream, isn, maxGaps);
    MissingIsNotSeen(ReceiveAll(Progress(isn, [], []), ss, maxGaps), ss, cells, stream, isn, d);
  }

  /** Once every cell has arrived, the whole stream has been handed over. */
  lemma {:induction false} DeliversAll(ss: seq<Segment>, cells: seq<Segment>, stream: seq<byte>, isn: u32, maxGaps: nat)
    requires Tiled(cells, stream, isn) && |cells| <= maxGaps
    requires forall s :: s in ss <==> s in cells
    ensures Join(ReceiveAll(Progress(isn, [], []), ss, maxGaps).out) == stream
  {
    var d := DeliversUpToMissing(ss, cells, stream, isn, maxGaps);
    assert d == |cells| && cells[..d] == cells;
  }
}
