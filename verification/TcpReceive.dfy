/** Sequence numbers compared by signed difference (section 3.3 of RFC 793). */
module TcpSeq {
  import opened Bytes

  const HALF := 0x8000_0000

  function Sub32(a: u32, b: u32): u32 { if a >= b then a - b else a - b + TWO32 }

  function Add32(a: u32, n: nat): u32 { (a + n) % TWO32 }

  predicate SeqLT(a: u32, b: u32) { Sub32(a, b) >= HALF }
  predicate SeqGT(a: u32, b: u32) { 0 < Sub32(a, b) < HALF }
  predicate SeqOverlap(aStart: u32, aEnd: u32, bStart: u32, bEnd: u32) { SeqLT(aStart, bEnd) && SeqLT(bStart, aEnd) }

  /** How far a sequence number lies behind the start of a window. */
  function Offset(x: u32, lo: u32): nat { Sub32(x, lo) }

  /** Inside a window narrower than 2^31, comparing sequence numbers is comparing offsets. */
  lemma {:induction false} SeqLTInWindow(a: u32, b: u32, lo: u32)
    requires Offset(a, lo) < HALF && Offset(b, lo) < HALF
    ensures SeqLT(a, b) <==> Offset(a, lo) < Offset(b, lo)
  {}

  lemma {:induction false} OffsetAdd(a: u32, n: nat, lo: u32)
    requires Offset(a, lo) + n < TWO32
    ensures Offset(Add32(a, n), lo) == Offset(a, lo) + n
  {
    if a + n < TWO32 {
      assert (a + n) % TWO32 == a + n;
    } else {
      assert a + n - TWO32 < TWO32;
      assert (a + n) % TWO32 == a + n - TWO32;
    }
  }

  /** Offsets below 2^32 are told apart by their sequence numbers. */
  lemma {:induction false} AddInjective(a: u32, m: nat, n: nat)
    requires m < TWO32 && n < TWO32 && Add32(a, m) == Add32(a, n)
    ensures m == n
  {
    OffsetAdd(a, m, a);
    OffsetAdd(a, n, a);
  }
}

/** Segments and the bytes they carry. */
module TcpSegments {
  import opened Bytes
  import opened Common

  datatype Segment = Segment(seqStart: u32, seqEnd: u32, payload: seq<byte>)

  function Join(segments: seq<Segment>): seq<byte> {
    if segments == [] then [] else Join(segments[..|segments| - 1]) + segments[|segments| - 1].payload
  }

  lemma {:induction false} JoinNext(segments: seq<Segment>, s: Segment)
    ensures Join(segments + [s]) == Join(segments) + s.payload
  {
    assert (segments + [s])[..|segments|] == segments;
  }

  lemma {:induction false} SnocAppend(a: seq<Segment>, b: seq<Segment>)
    requires b != []
    ensures a + b == a + b[..|b| - 1] + [b[|b| - 1]]
  {}

  lemma {:induction false} JoinAppend(a: seq<Segment>, b: seq<Segment>)
    ensures Join(a + b) == Join(a) + Join(b)
  {
    if b == [] {
      assert a + b == a;
    } else {
      var b', s := b[..|b| - 1], b[|b| - 1];
      JoinAppend(a, b');
      JoinNext(a + b', s);
      SnocAppend(a, b);
      Assoc(Join(a), Join(b'), s.payload);
    }
  }
}

/** Out-of-order reassembly: what reaches the application is always a prefix of the sent stream. */
module TcpReceive {
  import opened Bytes
  import opened Common
  import opened TcpSegments
  import opened TcpSeq

  // ----- one pass over the buffered segments -----

  /** The state of a pass: the expected sequence number, what was taken and what stays. */
  datatype Pass = Pass(next: u32, taken: seq<Segment>, kept: seq<Segment>) {
    function Step(s: Segment): Pass {
      if s.seqStart == next then Pass(s.seqEnd, taken + [s], kept) else Pass(next, taken, kept + [s])
    }

    /** What a later pass takes comes behind what this one took. */
    function Then(p: Pass): Pass { Pass(p.next, taken + p.taken, p.kept) }
  }

  function OnePass(segments: seq<Segment>, next: u32): Pass {
    if segments == [] then Pass(next, [], [])
    else OnePass(segments[..|segments| - 1], next).Step(segments[|segments| - 1])
  }

  lemma {:induction false} PassCounts(segments: seq<Segment>, next: u32)
    ensures var p := OnePass(segments, next); |p.taken| + |p.kept| == |segments|
  {
    if segments != [] { PassCounts(segments[..|segments| - 1], next); }
  }

  /** Passes are repeated until one takes nothing. */
  function Collect(segments: seq<Segment>, next: u32): (p: Pass)
    decreases |segments|
  {
    var first := OnePass(segments, next);
    PassCounts(segments, next);
    if first.taken == [] then first
    else
      var rest := Collect(first.kept, first.next);
      Pass(rest.next, first.taken + rest.taken, rest.kept)
  }

  // ----- segments of a stream -----

  /** The segment carries the bytes of the stream that its sequence numbers say. */
  ghost predicate SliceAt(s: Segment, stream: seq<byte>, isn: u32, o: nat) {
    && s.payload != [] && o + |s.payload| <= |stream| && s.payload == stream[o..o + |s.payload|]
    && s.seqStart == Add32(isn, o) && s.seqEnd == Add32(isn, o + |s.payload|)
  }

  ghost predicate TrueSlice(s: Segment, stream: seq<byte>, isn: u32) {
    exists o: nat :: SliceAt(s, stream, isn, o)
  }

  ghost predicate AllTrue(segments: seq<Segment>, stream: seq<byte>, isn: u32) {
    forall i :: 0 <= i < |segments| ==> TrueSlice(segments[i], stream, isn)
  }

  /** The bytes are the stream's from offset `d` on, and `next` is the number that follows them. */
  ghost predicate Continues(bytes: seq<byte>, next: u32, stream: seq<byte>, isn: u32, d: nat) {
    d + |bytes| <= |stream| && bytes == stream[d..d + |bytes|] && next == Add32(isn, d + |bytes|)
  }

  /** A segment that starts at the expected number continues what was taken so far. */
  lemma {:induction false} SegmentContinues(s: Segment, bytes: seq<byte>, next: u32, stream: seq<byte>, isn: u32,
                                            d: nat)
    requires |stream| < TWO32 && TrueSlice(s, stream, isn) && s.seqStart == next
    requires Continues(bytes, next, stream, isn, d)
    ensures Continues(bytes + s.payload, s.seqEnd, stream, isn, d)
  {
    var o: nat :| SliceAt(s, stream, isn, o);
    AddInjective(isn, o, d + |bytes|);
    Adjacent(stream, d, o, o + |s.payload|);
  }

  lemma {:induction false} Chained(x: seq<byte>, m: u32, y: seq<byte>, n: u32, stream: seq<byte>, isn: u32, d: nat)
    requires Continues(x, m, stream, isn, d) && Continues(y, n, stream, isn, d + |x|)
    ensures Continues(x + y, n, stream, isn, d)
  {
    Adjacent(stream, d, d + |x|, d + |x| + |y|);
  }

  lemma {:induction false} PassContinues(segments: seq<Segment>, next: u32, stream: seq<byte>, isn: u32, d: nat)
    requires |stream| < TWO32 && d <= |stream| && AllTrue(segments, stream, isn) && next == Add32(isn, d)
    ensures var p := OnePass(segments, next);
            Continues(Join(p.taken), p.next, stream, isn, d) && AllTrue(p.kept, stream, isn)
  {
    if segments != [] {
      var n := |segments| - 1;
      PassContinues(segments[..n], next, stream, isn, d);
      var p, s := OnePass(segments[..n], next), segments[n];
      if s.seqStart == p.next {
        SegmentContinues(s, Join(p.taken), p.next, stream, isn, d);
        JoinNext(p.taken, s);
      }
    }
  }

  /** collectContiguous hands over exactly the next bytes of the stream. */
  lemma {:induction false} CollectContinues(segments: seq<Segment>, next: u32, stream: seq<byte>, isn: u32, d: nat)
    requires |stream| < TWO32 && d <= |stream| && AllTrue(segments, stream, isn) && next == Add32(isn, d)
    ensures var p := Collect(segments, next);
            Continues(Join(p.taken), p.next, stream, isn, d) && AllTrue(p.kept, stream, isn)
    decreases |segments|
  {
    PassContinues(segments, next, stream, isn, d);
    PassCounts(segments, next);
    var first := OnePass(segments, next);
    if first.taken != [] {
      CollectContinues(first.kept, first.next, stream, isn, d + |Join(first.taken)|);
      var rest := Collect(first.kept, first.next);
      JoinAppend(first.taken, rest.taken);
      Chained(Join(first.taken), first.next, Join(rest.taken), rest.next, stream, isn, d);
    }
  }

  predicate NoneAt(segments: seq<Segment>, next: u32) {
    forall i :: 0 <= i < |segments| ==> segments[i].seqStart != next
  }

  lemma {:induction false} SnocIdle(segments: seq<Segment>, next: u32)
    requires segments != []
    ensures segments == segments[..|segments| - 1] + [segments[|segments| - 1]]
    ensures NoneAt(segments[..|segments| - 1], next) && segments[|segments| - 1].seqStart != next ==>
              NoneAt(segments, next)
  {
    var n := |segments| - 1;
    if NoneAt(segments[..n], next) {
      assert forall i :: 0 <= i < n ==> segments[..n][i] == segments[i];
    }
  }

  lemma {:induction false} IdlePass(segments: seq<Segment>, next: u32)
    requires OnePass(segments, next).taken == []
    ensures var p := OnePass(segments, next);
            p.next == next && p.kept == segments && NoneAt(segments, next)
  {
    if segments != [] {
      var n := |segments| - 1;
      var before, s := segments[..n], segments[n];
      var p := OnePass(before, next);
      assert OnePass(segments, next) == p.Step(s);
      assert p.taken == [] && s.seqStart != p.next;
      IdlePass(before, next);
      SnocIdle(segments, next);
    }
  }

  /** Nothing that stays buffered could be handed over. */
  lemma {:induction false} CollectIsComplete(segments: seq<Segment>, next: u32)
    ensures var p := Collect(segments, next); NoneAt(p.kept, p.next)
    decreases |segments|
  {
    PassCounts(segments, next);
    var first := OnePass(segments, next);
    if first.taken == [] {
      IdlePass(segments, next);
    } else {
      CollectIsComplete(first.kept, first.next);
      var rest, p := Collect(first.kept, first.next), Collect(segments, next);
      assert p.kept == rest.kept && p.next == rest.next;
    }
  }

  // ----- order of the buffer -----

  /** The segment lies in the window of 2^31 - 1 numbers that starts at `lo`. */
  predicate InWindow(s: Segment, lo: u32) {
    |s.payload| > 0 && Offset(s.seqStart, lo) + |s.payload| < HALF && s.seqEnd == Add32(s.seqStart, |s.payload|)
  }

  predicate Before(a: Segment, b: Segment, lo: u32) {
    Offset(a.seqStart, lo) + |a.payload| <= Offset(b.seqStart, lo)
  }

  /** Sorted by position and pairwise disjoint. */
  ghost predicate Ordered(segments: seq<Segment>, lo: u32) {
    && (forall i :: 0 <= i < |segments| ==> InWindow(segments[i], lo))
    && (forall i, j {:trigger Before(segments[i], segments[j], lo)} :: 0 <= i < j < |segments| ==>
          Before(segments[i], segments[j], lo))
  }

  /** Two segments of a window overlap, by the code's test, exactly when neither is before the other. */
  lemma {:induction false} OverlapInWindow(a: Segment, b: Segment, lo: u32)
    requires InWindow(a, lo) && InWindow(b, lo)
    ensures SeqOverlap(a.seqStart, a.seqEnd, b.seqStart, b.seqEnd) <==> !Before(a, b, lo) && !Before(b, a, lo)
    ensures SeqLT(a.seqStart, b.seqStart) <==> Offset(a.seqStart, lo) < Offset(b.seqStart, lo)
  {
    OffsetAdd(a.seqStart, |a.payload|, lo);
    OffsetAdd(b.seqStart, |b.payload|, lo);
    SeqLTInWindow(a.seqStart, b.seqEnd, lo);
    SeqLTInWindow(b.seqStart, a.seqEnd, lo);
    SeqLTInWindow(a.seqStart, b.seqStart, lo);
  }

  /** The first buffered segment that starts after `s`. */
  predicate IsSpot(segments: seq<Segment>, s: Segment, k: nat) {
    && k <= |segments| && (k < |segments| ==> SeqLT(s.seqStart, segments[k].seqStart))
    && forall j :: 0 <= j < k ==> !SeqLT(s.seqStart, segments[j].seqStart)
  }

  predicate OverlapsNone(segments: seq<Segment>, s: Segment) {
    forall i :: 0 <= i < |segments| ==> !SeqOverlap(s.seqStart, s.seqEnd, segments[i].seqStart, segments[i].seqEnd)
  }

  /** The list with the segment put in at its spot. */
  ghost predicate InsertedInto(segments: seq<Segment>, s: Segment, r: seq<Segment>) {
    exists k: nat :: IsSpot(segments, s, k) && r == segments[..k] + [s] + segments[k..]
  }

  /** Inserting at the spot keeps a window's segments sorted and disjoint. */
  lemma {:induction false} InsertKeepsOrder(segments: seq<Segment>, s: Segment, k: nat, lo: u32)
    requires Ordered(segments, lo) && InWindow(s, lo) && OverlapsNone(segments, s) && IsSpot(segments, s, k)
    ensures Ordered(segments[..k] + [s] + segments[k..], lo)
  {
    var r := segments[..k] + [s] + segments[k..];
    forall i | 0 <= i < |segments| ensures if i < k then Before(segments[i], s, lo) else Before(s, segments[i], lo) {
      OverlapInWindow(s, segments[i], lo);
      if i > k {
        assert Before(segments[k], segments[i], lo);
        OverlapInWindow(s, segments[k], lo);
      }
    }
    forall i, j | 0 <= i < j < |r| ensures Before(r[i], r[j], lo) {
      var i', j' := if i < k then i else i - 1, if j < k then j else j - 1;
      if i != k && j != k { assert Before(segments[i'], segments[j'], lo); }
    }
  }

  /** Taking segments out keeps the rest sorted and disjoint. */
  lemma {:induction false} PassKeepsOrder(segments: seq<Segment>, next: u32, lo: u32)
    requires Ordered(segments, lo)
    ensures Ordered(OnePass(segments, next).kept, lo)
    ensures forall i :: 0 <= i < |OnePass(segments, next).kept| ==> OnePass(segments, next).kept[i] in segments
  {
    if segments != [] {
      var n := |segments| - 1;
      var before, s := segments[..n], segments[n];
      assert forall i, j :: 0 <= i < j < n ==> Before(segments[i], segments[j], lo);
      PassKeepsOrder(before, next, lo);
      var kept := OnePass(before, next).kept;
      forall i | 0 <= i < |kept| ensures kept[i] in segments && Before(kept[i], s, lo) {
        var j :| 0 <= j < n && before[j] == kept[i];
        assert Before(segments[j], segments[n], lo);
      }
    }
  }

  lemma {:induction false} CollectKeepsOrder(segments: seq<Segment>, next: u32, lo: u32)
    requires Ordered(segments, lo)
    ensures Ordered(Collect(segments, next).kept, lo) && |Collect(segments, next).kept| <= |segments|
    decreases |segments|
  {
    PassCounts(segments, next);
    PassKeepsOrder(segments, next, lo);
    var first := OnePass(segments, next);
    if first.taken != [] { CollectKeepsOrder(first.kept, first.next, lo); }
  }

  /** What the buffer keeps over a run: its limit, and for a stream that fits the window its order. */
  ghost predicate Tidy(segments: seq<Segment>, maxGaps: nat, stream: seq<byte>, isn: u32) {
    |segments| <= maxGaps && (|stream| < HALF ==> Ordered(segments, isn))
  }

  lemma {:induction false} CollectShrinks(segments: seq<Segment>, next: u32)
    ensures |Collect(segments, next).kept| <= |segments|
    decreases |segments|
  {
    PassCounts(segments, next);
    var first := OnePass(segments, next);
    if first.taken != [] { CollectShrinks(first.kept, first.next); }
  }

  lemma {:induction false} CollectKeepsTidy(segments: seq<Segment>, next: u32, maxGaps: nat, stream: seq<byte>,
                                            isn: u32)
    requires Tidy(segments, maxGaps, stream, isn)
    ensures Tidy(Collect(segments, next).kept, maxGaps, stream, isn)
  {
    CollectShrinks(segments, next);
    if |stream| < HALF { CollectKeepsOrder(segments, next, isn); }
  }

  /** Every segment of a short stream lies in the window that starts with it. */
  lemma {:induction false} SliceInWindow(s: Segment, stream: seq<byte>, isn: u32)
    requires TrueSlice(s, stream, isn) && |stream| < HALF
    ensures InWindow(s, isn)
  {
    var o: nat :| SliceAt(s, stream, isn, o);
    OffsetAdd(isn, o, isn);
    OffsetAdd(isn, o + |s.payload|, isn);
    OffsetAdd(s.seqStart, |s.payload|, isn);
  }

  // ----- a run of segments -----

  /** The number expected next, what is buffered, and what was handed over. */
  datatype Progress = Progress(next: u32, held: seq<Segment>, out: seq<Segment>)

  /** The buffer with a segment put in before the first one that starts after it. */
  function PutIn(held: seq<Segment>, s: Segment): seq<Segment> {
    if held == [] || SeqLT(s.seqStart, held[0].seqStart) then [s] + held else [held[0]] + PutIn(held[1..], s)
  }

  lemma {:induction false} PutInAtSpot(held: seq<Segment>, s: Segment, k: nat)
    requires IsSpot(held, s, k)
    ensures PutIn(held, s) == held[..k] + [s] + held[k..]
    decreases k
  {
    if k == 0 {
      assert held[..0] + [s] + held[0..] == [s] + held;
    } else {
      assert !SeqLT(s.seqStart, held[0].seqStart);
      var tail := held[1..];
      forall j | 0 <= j < k - 1 ensures !SeqLT(s.seqStart, tail[j].seqStart) {
        assert !SeqLT(s.seqStart, held[j + 1].seqStart);
      }
      PutInAtSpot(tail, s, k - 1);
      assert held[..k] + [s] + held[k..] == [held[0]] + (tail[..k - 1] + [s] + tail[k - 1..]);
    }
  }

  function Receive(r: Progress, s: Segment, maxGaps: nat): Progress {
    if s.seqStart == r.next then
      var p := Collect(r.held, s.seqEnd);
      Progress(p.next, p.kept, r.out + ([s] + p.taken))
    else if SeqGT(s.seqStart, r.next) && OverlapsNone(r.held, s) && |r.held| < maxGaps then
      r.(held := PutIn(r.held, s))
    else r
  }

  function ReceiveAll(r: Progress, ss: seq<Segment>, maxGaps: nat): Progress {
    if ss == [] then r else Receive(ReceiveAll(r, ss[..|ss| - 1], maxGaps), ss[|ss| - 1], maxGaps)
  }

  // ----- the buffer and the connection -----

  class RecvBuffer {
    var segments: seq<Segment>
    const maxGaps: nat

    constructor (maxGaps: nat)
      ensures this.maxGaps == maxGaps && segments == []
    {
      this.maxGaps, segments := maxGaps, [];
    }

    /** insert: refuses what overlaps and what no longer fits. */
    method Insert(s: Segment) returns (ok: bool)
      modifies this`segments
      ensures ok <==> OverlapsNone(old(segments), s) && |old(segments)| < maxGaps
      ensures !ok ==> segments == old(segments)
      ensures ok ==> InsertedInto(old(segments), s, segments)
      ensures |old(segments)| <= maxGaps ==> |segments| <= maxGaps
      ensures ok ==> forall lo {:trigger Ordered(old(segments), lo)} ::
                InWindow(s, lo) && Ordered(old(segments), lo) ==> Ordered(segments, lo)
    {
      var spot: nat := |segments|;
      for i := 0 to |segments|
        invariant segments == old(segments)
        invariant forall j :: 0 <= j < i ==> !SeqOverlap(s.seqStart, s.seqEnd, segments[j].seqStart, segments[j].seqEnd)
        invariant spot == |segments| || (spot < i && SeqLT(s.seqStart, segments[spot].seqStart))
        invariant forall j :: 0 <= j < i && j < spot ==> !SeqLT(s.seqStart, segments[j].seqStart)
      {
        if SeqOverlap(s.seqStart, s.seqEnd, segments[i].seqStart, segments[i].seqEnd) {
          return false;
        }
        if SeqLT(s.seqStart, segments[i].seqStart) && spot == |segments| {
          spot := i;
        }
      }
      if |segments| >= maxGaps {
        return false;
      }
      forall lo | InWindow(s, lo) && Ordered(segments, lo)
        ensures Ordered(segments[..spot] + [s] + segments[spot..], lo)
      {
        InsertKeepsOrder(segments, s, spot, lo);
      }
      assert IsSpot(segments, s, spot);
      segments := segments[..spot] + [s] + segments[spot..];
      ok := true;
    }

    /** One round of collectContiguous's inner loop. */
    method TakeRound(next: u32) returns (p: Pass)
      modifies this`segments
      ensures p == OnePass(old(segments), next) && segments == p.kept
    {
      p := Pass(next, [], []);
      for i := 0 to |segments|
        invariant segments == old(segments) && p == OnePass(segments[..i], next)
      {
        assert segments[..i + 1][..i] == segments[..i];
        p := p.Step(segments[i]);
      }
      assert segments[..|segments|] == segments;
      segments := p.kept;
    }

    /** collectContiguous */
    method CollectContiguous(next: u32) returns (collected: seq<Segment>, next': u32)
      modifies this`segments
      ensures Pass(next', collected, segments) == Collect(old(segments), next)
    {
      collected, next' := [], next;
      while true
        invariant var rest := Collect(segments, next');
                  Collect(old(segments), next) == Pass(rest.next, collected + rest.taken, rest.kept)
        decreases |segments|
      {
        ghost var was, from := segments, next';
        PassCounts(segments, next');
        var p := TakeRound(next');
        if p.taken == [] {
          IdlePass(was, from);
          assert collected + [] == collected;
          break;
        }
        Assoc(collected, p.taken, Collect(p.kept, p.next).taken);
        collected, next' := collected + p.taken, p.next;
      }
    }
  }

  /** A segment and what it uncovers in the buffer, together. */
  lemma {:induction false} HandOver(delivered: seq<byte>, s: Segment, collected: seq<Segment>, next: u32,
                                    stream: seq<byte>, isn: u32)
    requires Continues(delivered + s.payload, s.seqEnd, stream, isn, 0)
    requires Continues(Join(collected), next, stream, isn, |delivered| + |s.payload|)
    ensures Continues(delivered + Join([s] + collected), next, stream, isn, 0)
  {
    Chained(delivered + s.payload, s.seqEnd, Join(collected), next, stream, isn, 0);
    JoinAppend([s], collected);
    JoinNext([], s);
    assert [] + [s] == [s] && [] + s.payload == s.payload;
    Assoc(delivered, s.payload, Join(collected));
  }

  /** The receiving half of an established connection, against the stream that the peer sends. */
  class Receiver {
    var guestSeq: u32
    const buffer: RecvBuffer
    ghost const stream: seq<byte>
    ghost const isn: u32
    ghost var delivered: seq<byte>

    constructor (isn: u32, maxGaps: nat, ghost stream: seq<byte>)
      requires |stream| < TWO32
      ensures Valid() && this.stream == stream && this.isn == isn && delivered == [] && fresh(buffer)
      ensures guestSeq == isn && buffer.segments == [] && buffer.maxGaps == maxGaps
    {
      var b := new RecvBuffer(maxGaps);
      guestSeq, buffer, this.isn, this.stream, delivered := isn, b, isn, stream, [];
      new;
      assert isn % TWO32 == isn;
    }

    /**
      What was handed to the application is the prefix of the stream that guestSeq says; the buffer keeps to
      its limit, and for a stream that fits the window its segments are sorted and disjoint.
     */
    ghost predicate Valid()
      reads this, buffer
    {
      && |stream| < TWO32 && AllTrue(buffer.segments, stream, isn)
      && Tidy(buffer.segments, buffer.maxGaps, stream, isn)
      && Continues(delivered, guestSeq, stream, isn, 0)
    }

    /** Buffers a segment that lies ahead, if it is new and there is room. */
    method StoreAhead(s: Segment)
      requires Valid() && TrueSlice(s, stream, isn)
      modifies buffer
      ensures Valid()
      ensures if OverlapsNone(old(buffer.segments), s) && |old(buffer.segments)| < buffer.maxGaps
              then InsertedInto(old(buffer.segments), s, buffer.segments) &&
                   buffer.segments == PutIn(old(buffer.segments), s)
              else buffer.segments == old(buffer.segments)
    {
      if |stream| < HALF { SliceInWindow(s, stream, isn); }
      ghost var held := buffer.segments;
      var stored := buffer.Insert(s);
      if stored {
        ghost var k: nat :| IsSpot(held, s, k) && buffer.segments == held[..k] + [s] + held[k..];
        PutInAtSpot(held, s, k);
      }
    }

    /** The data part of handleSegment; `out` is what goes to enqueueData, behind the segments `before`. */
    method HandleData(s: Segment, ghost before: seq<Segment>) returns (out: seq<Segment>)
      requires Valid() && TrueSlice(s, stream, isn)
      modifies this, buffer
      ensures Valid()
      ensures delivered == old(delivered) + Join(out)
      ensures s.seqStart == old(guestSeq) ==>
                && Pass(guestSeq, out, buffer.segments) ==
                   Pass(s.seqEnd, [s], []).Then(Collect(old(buffer.segments), s.seqEnd))
                && NoneAt(buffer.segments, guestSeq)
      ensures s.seqStart != old(guestSeq) ==> out == [] && guestSeq == old(guestSeq)
      ensures s.seqStart != old(guestSeq) ==>
                if SeqGT(s.seqStart, guestSeq) && OverlapsNone(old(buffer.segments), s) &&
                   |old(buffer.segments)| < buffer.maxGaps
                then InsertedInto(old(buffer.segments), s, buffer.segments)
                else buffer.segments == old(buffer.segments)
      ensures Progress(guestSeq, buffer.segments, before + out) ==
              Receive(Progress(old(guestSeq), old(buffer.segments), before), s, buffer.maxGaps)
    {
      if s.seqStart != guestSeq {
        if SeqGT(s.seqStart, guestSeq) {
          StoreAhead(s);
        }
        assert before + [] == before;
        assert delivered + [] == delivered;
        return [];
      }
      SegmentContinues(s, delivered, guestSeq, stream, isn, 0);
      CollectContinues(buffer.segments, s.seqEnd, stream, isn, |delivered| + |s.payload|);
      CollectIsComplete(buffer.segments, s.seqEnd);
      CollectKeepsTidy(buffer.segments, s.seqEnd, buffer.maxGaps, stream, isn);
      var collected, next := buffer.CollectContiguous(s.seqEnd);
      HandOver(delivered, s, collected, next, stream, isn);
      guestSeq := next;
      out := [s] + collected;
      delivered := delivered + Join(out);
    }

    /** Any run of segments, lost, duplicated, reordered or overlapping, delivers a prefix of the stream. */
    method HandleAll(ss: seq<Segment>) returns (out: seq<byte>)
      requires Valid() && AllTrue(ss, stream, isn) && delivered == []
      modifies this, buffer
      ensures Valid() && out == delivered && out <= stream && guestSeq == Add32(isn, |out|)
      ensures |buffer.segments| <= buffer.maxGaps && (|stream| < HALF ==> Ordered(buffer.segments, isn))
      ensures var r := ReceiveAll(Progress(old(guestSeq), old(buffer.segments), []), ss, buffer.maxGaps);
              guestSeq == r.next && buffer.segments == r.held && out == Join(r.out)
    {
      out := [];
      ghost var first, handed: seq<Segment> := Progress(guestSeq, buffer.segments, []), [];
      for i := 0 to |ss|
        invariant Valid() && out == delivered == Join(handed)
        invariant Progress(guestSeq, buffer.segments, handed) == ReceiveAll(first, ss[..i], buffer.maxGaps)
      {
        TakeNext(ss, i);
        var next := HandleData(ss[i], handed);
        JoinAppend(handed, next);
        out, handed := out + Join(next), handed + next;
      }
      assert ss[..|ss|] == ss;
    }
  }
}
