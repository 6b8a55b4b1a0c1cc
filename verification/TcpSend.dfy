/** The sending half of a connection: windowed segmentation and the retransmission queue. */
module TcpSend {
  import opened Bytes
  import opened Common
  import opened TcpReceive
  import opened TcpSegments
  import opened TcpSeq

  const MAX_PAYLOAD := 1460

  predicate SeqLTE(a: u32, b: u32) { Sub32(a, b) == 0 || Sub32(a, b) >= HALF }

  /** A 32-bit left shift. */
  function ShiftLeft(x: u32, n: nat): u32 {
    if n == 0 then x
    else
      var y := ShiftLeft(x, n - 1);
      if 2 * y < TWO32 then 2 * y else 2 * y - TWO32
  }

  function Pow2(n: nat): nat { if n == 0 then 1 else 2 * Pow2(n - 1) }

  /** Doubling what is left of a number below 2^32 leaves what is left of its double. */
  lemma {:induction false} DoubleMod(a: nat, y: u32)
    requires y == a % TWO32
    ensures (2 * a) % TWO32 == if 2 * y < TWO32 then 2 * y else 2 * y - TWO32
  {}

  /** The shift is multiplication by a power of two, in 32 bits. */
  lemma {:induction false} ShiftIsProduct(x: u32, n: nat)
    ensures ShiftLeft(x, n) == (x * Pow2(n)) % TWO32
  {
    if n == 0 {
      assert x * 1 == x;
    } else {
      ShiftIsProduct(x, n - 1);
      DoubleMod(x * Pow2(n - 1), ShiftLeft(x, n - 1));
      assert x * (2 * Pow2(n - 1)) == 2 * (x * Pow2(n - 1));
    }
  }

  /** The peer's window: the field itself, or scaled by the power of two that was negotiated, in 32 bits. */
  function PeerWindow(wnd: u16, scaled: bool, shift: nat): u32 {
    if scaled then (wnd * Pow2(shift)) % TWO32 else wnd
  }

  /** The window as it is computed. */
  function Scaled(wnd: u16, scaled: bool, shift: nat): (w: u32)
    ensures w == PeerWindow(wnd, scaled, shift)
  {
    ShiftIsProduct(wnd, shift);
    if scaled then ShiftLeft(wnd, shift) else wnd
  }

  /** How much of `len` bytes goes into the next segment; nothing while the window is shut. */
  function ChunkSize(inFlight: nat, wnd: nat, len: nat): (n: nat)
    ensures n == if inFlight >= wnd then 0 else Min(len, Min(1460, wnd - inFlight))
  {
    if inFlight >= wnd then 0
    else
      var most := if wnd - inFlight < MAX_PAYLOAD then wnd - inFlight else MAX_PAYLOAD;
      if len < most then len else most
  }

  // ----- the retransmission queue -----

  /** The segments that an acknowledgment leaves. */
  function Unacked(segments: seq<Segment>, ack: u32): seq<Segment> {
    if segments == [] then []
    else
      var before, s := Unacked(segments[..|segments| - 1], ack), segments[|segments| - 1];
      if SeqLTE(s.seqEnd, ack) then before else before + [s]
  }

  class SendBuffer {
    var segments: seq<Segment>
    var used: int
    const capacity: nat

    constructor (capacity: nat)
      ensures this.capacity == capacity && segments == [] && used == 0
    {
      this.capacity, segments, used := capacity, [], 0;
    }

    ghost predicate Counted()
      reads this
    {
      used == |Join(segments)| <= capacity
    }

    method Append(s: Segment) returns (ok: bool)
      requires Counted()
      modifies this`segments, this`used
      ensures Counted()
      ensures ok <==> |Join(old(segments))| + |s.payload| <= capacity
      ensures segments == if ok then old(segments) + [s] else old(segments)
    {
      if used + |s.payload| > capacity {
        return false;
      }
      JoinNext(segments, s);
      segments, used := segments + [s], used + |s.payload|;
      ok := true;
    }

    method Ack(ack: u32)
      requires Counted()
      modifies this`segments, this`used
      ensures Counted() && segments == Unacked(old(segments), ack)
    {
      var kept: seq<Segment> := [];
      for i := 0 to |segments|
        invariant segments == old(segments) && kept == Unacked(segments[..i], ack)
        invariant used - |Join(kept)| == |Join(segments)| - |Join(segments[..i])|
        invariant used <= capacity
      {
        TakeNext(segments, i);
        JoinNext(segments[..i], segments[i]);
        if SeqLTE(segments[i].seqEnd, ack) {
          used := used - |segments[i].payload|;
        } else {
          JoinNext(kept, segments[i]);
          kept := kept + [segments[i]];
        }
      }
      assert segments[..|segments|] == segments;
      segments := kept;
    }
  }

  // ----- the emitted segments -----

  /** Segments with consecutive ranges from `start` on. */
  predicate Chain(es: seq<Segment>, start: nat) {
    es == [] ||
    var n := |es| - 1;
    && Chain(es[..n], start) && es[n].payload != []
    && es[n].seqStart == start + |Join(es[..n])| && es[n].seqEnd == es[n].seqStart + |es[n].payload|
  }

  lemma {:induction false} ChainNext(es: seq<Segment>, start: nat, s: Segment)
    requires Chain(es, start) && s.payload != []
    requires s.seqStart == start + |Join(es)| && s.seqEnd == s.seqStart + |s.payload|
    ensures Chain(es + [s], start)
  {
    assert (es + [s])[..|es|] == es;
  }

  /** Later segments end later, and none beyond the last byte emitted. */
  lemma {:induction false} ChainEnds(es: seq<Segment>, start: nat, i: nat)
    requires Chain(es, start) && i < |es|
    ensures start < es[i].seqEnd <= start + |Join(es)|
    ensures i + 1 < |es| ==> es[i].seqEnd < es[i + 1].seqEnd
  {
    var n := |es| - 1;
    if i < n {
      ChainEnds(es[..n], start, i);
      assert es[..n][i] == es[i];
      if i + 1 < n { assert es[..n][i + 1] == es[i + 1]; }
    }
  }

  lemma {:induction false} ChainSorted(es: seq<Segment>, start: nat, i: nat, j: nat)
    requires Chain(es, start) && i <= j < |es|
    ensures es[i].seqEnd <= es[j].seqEnd
  {
    if i < j {
      ChainSorted(es, start, i, j - 1);
      ChainEnds(es, start, j - 1);
    }
  }

  lemma {:induction false} SmallSum(a: u32, n: nat)
    requires a + n < TWO32
    ensures Add32(a, n) == a + n
  {}

  lemma {:induction false} SliceOfPrefix(s: Segment, x: seq<byte>, more: seq<byte>, isn: u32, o: nat)
    requires SliceAt(s, x, isn, o)
    ensures SliceAt(s, x + more, isn, o)
  {
    assert (x + more)[o..o + |s.payload|] == x[o..o + |s.payload|];
  }

  lemma {:induction false} LastIsSlice(s: Segment, before: seq<byte>, start: u32)
    requires s.payload != [] && start <= HALF && |before| + |s.payload| < HALF
    requires s.seqStart == start + |before| && s.seqEnd == s.seqStart + |s.payload|
    ensures SliceAt(s, before + s.payload, start, |before|)
  {
    assert (before + s.payload)[|before|..|before| + |s.payload|] == s.payload;
    SmallSum(start, |before|);
    SmallSum(start, |before| + |s.payload|);
  }

  /** Each emitted segment is the slice of the written bytes that its numbers say: a receiver can reassemble them. */
  lemma {:induction false} EmittedAreSlices(es: seq<Segment>, start: u32, i: nat)
    requires Chain(es, start) && i < |es| && start <= HALF && |Join(es)| < HALF
    ensures start <= es[i].seqStart && SliceAt(es[i], Join(es), start, es[i].seqStart - start)
  {
    var n := |es| - 1;
    if i < n {
      EmittedAreSlices(es[..n], start, i);
      SliceOfPrefix(es[i], Join(es[..n]), es[n].payload, start, es[i].seqStart - start);
    } else {
      LastIsSlice(es[n], Join(es[..n]), start);
    }
  }

  /** Without wrap-around the signed comparison is the plain one. */
  lemma {:induction false} PlainOrder(a: u32, b: u32, start: nat)
    requires start <= a < start + HALF && start <= b < start + HALF
    ensures SeqLTE(a, b) <==> a <= b
  {}

  /** How many of the segments are wholly acknowledged. */
  function AckedCount(es: seq<Segment>, ack: nat): (k: nat)
    ensures k <= |es|
  {
    if es == [] || es[|es| - 1].seqEnd > ack then if es == [] then 0 else AckedCount(es[..|es| - 1], ack)
    else |es|
  }

  /** In a chain the wholly acknowledged segments are the first ones. */
  lemma {:induction false} AckedAreFirst(es: seq<Segment>, start: nat, ack: nat, i: nat)
    requires Chain(es, start) && i < |es|
    ensures es[i].seqEnd <= ack <==> i < AckedCount(es, ack)
  {
    var n := |es| - 1;
    if es[n].seqEnd > ack {
      if i < n {
        AckedAreFirst(es[..n], start, ack, i);
        assert es[..n][i] == es[i];
      }
    } else {
      ChainSorted(es, start, i, n);
    }
  }

  lemma {:induction false} StretchLast(es: seq<Segment>, k: nat, q: nat)
    requires k < q <= |es|
    ensures es[k..q] == es[k..q - 1] + [es[q - 1]] && es[k..q][..q - k - 1] == es[k..q - 1]
  {}

  /** Acknowledging a stretch of a chain leaves the part behind the acknowledged segments. */
  lemma {:induction false} UnackedIsSuffix(es: seq<Segment>, start: nat, k: nat, q: nat, ack: u32)
    requires Chain(es, start) && k <= q <= |es| && |Join(es)| < HALF && start <= ack <= start + |Join(es)|
    ensures var m := if AckedCount(es, ack) < k then k else if AckedCount(es, ack) > q then q else AckedCount(es, ack);
            Unacked(es[k..q], ack) == es[m..q]
    decreases q
  {
    if k < q {
      UnackedIsSuffix(es, start, k, q - 1, ack);
      StretchLast(es, k, q);
      ChainEnds(es, start, q - 1);
      PlainOrder(es[q - 1].seqEnd, ack, start);
      AckedAreFirst(es, start, ack, q - 1);
      var c := AckedCount(es, ack);
      if c < q { StretchLast(es, if c < k then k else c, q); }
    }
  }

  // ----- the connection -----

  /** A segment from the peer that carries an acknowledgment and a window. */
  datatype AckInfo = AckInfo(ack: u32, window: u16)

  /**
    The state between two atomic steps. `emitted` are the segments sent so far, `edges` the right edge of
    the peer's window when each was sent; the first `queued` of them have been offered to the queue, and
    the queue holds those from `first` on.
   */
  ghost predicate InOrder(es: seq<Segment>, edges: seq<nat>, start: nat, hostSeq: nat, acked: nat) {
    && start <= HALF && |Join(es)| < HALF && Chain(es, start)
    && hostSeq == start + |Join(es)| && start <= acked <= hostSeq
    && |edges| == |es| && (forall i :: 0 <= i < |es| ==> es[i].seqEnd <= edges[i])
  }

  ghost predicate Queued(segments: seq<Segment>, es: seq<Segment>, first: nat, queued: nat, acked: nat) {
    first <= queued <= |es| && segments == es[first..queued] && first <= AckedCount(es, acked)
  }

  /** The queue holds exactly the emitted segments that are not wholly acknowledged. */
  ghost predicate Exact(segments: seq<Segment>, es: seq<Segment>, acked: nat) {
    segments == es[AckedCount(es, acked)..]
  }

  lemma {:induction false} AckedGrows(es: seq<Segment>, start: nat, a: nat, b: nat)
    requires Chain(es, start) && a <= b
    ensures AckedCount(es, a) <= AckedCount(es, b)
  {
    var k := AckedCount(es, a);
    if k > 0 {
      AckedAreFirst(es, start, a, k - 1);
      AckedAreFirst(es, start, b, k - 1);
    }
  }

  lemma {:induction false} AckedOfMore(es: seq<Segment>, s: Segment, ack: nat)
    requires s.seqEnd > ack
    ensures AckedCount(es + [s], ack) == AckedCount(es, ack)
  {
    assert (es + [s])[..|es|] == es;
  }

  /** A segment of the next `n` bytes, inside the window. */
  lemma {:induction false} EmitStep(es: seq<Segment>, edges: seq<nat>, start: nat, hostSeq: u32, acked: u32,
                                    segments: seq<Segment>, first: nat, s: Segment, edge: nat)
    requires InOrder(es, edges, start, hostSeq, acked) && Queued(segments, es, first, |es|, acked)
    requires s.payload != [] && s.seqStart == hostSeq && s.seqEnd == hostSeq + |s.payload|
    requires |Join(es)| + |s.payload| < HALF && s.seqEnd <= edge
    ensures InOrder(es + [s], edges + [edge], start, s.seqEnd, acked)
    ensures Queued(segments, es + [s], first, |es|, acked) && Join(es + [s]) == Join(es) + s.payload
  {
    JoinNext(es, s);
    AckedOfMore(es, s, acked);
    ChainNext(es, start, s);
    assert (es + [s])[first..|es|] == es[first..|es|];
  }

  lemma {:induction false} EnqueueStep(es: seq<Segment>, segments: seq<Segment>, first: nat, queued: nat, acked: u32,
                                       s: Segment)
    requires Queued(segments, es, first, queued, acked) && queued < |es| && s == es[queued]
    ensures Queued(segments + [s], es, first, queued + 1, acked)
  {
    StretchLast(es, first, queued + 1);
  }

  /** After an acknowledgment the queue starts at the first segment not wholly acknowledged. */
  lemma {:induction false} AckStep(es: seq<Segment>, edges: seq<nat>, start: nat, hostSeq: u32, acked: u32,
                                   segments: seq<Segment>, first: nat, queued: nat, ack: u32) returns (first': nat)
    requires InOrder(es, edges, start, hostSeq, acked) && Queued(segments, es, first, queued, acked)
    requires acked <= ack <= hostSeq
    ensures InOrder(es, edges, start, hostSeq, ack) && Queued(Unacked(segments, ack), es, first', queued, ack)
    ensures queued == |es| ==> Exact(Unacked(segments, ack), es, ack)
  {
    AckedGrows(es, start, acked, ack);
    UnackedIsSuffix(es, start, first, queued, ack);
    first' := if AckedCount(es, ack) > queued then queued else AckedCount(es, ack);
  }

  /** An acknowledgment that is behind the last one does no harm, and does nothing to an exact queue. */
  lemma {:induction false} StaleStep(es: seq<Segment>, edges: seq<nat>, start: nat, hostSeq: u32, acked: u32,
                                     segments: seq<Segment>, first: nat, queued: nat, snap: u32) returns (first': nat)
    requires InOrder(es, edges, start, hostSeq, acked) && Queued(segments, es, first, queued, acked)
    requires start <= snap <= acked
    ensures Queued(Unacked(segments, snap), es, first', queued, acked)
    ensures queued == |es| && (snap == acked || Exact(segments, es, acked)) ==>
              Exact(Unacked(segments, snap), es, acked)
  {
    AckedGrows(es, start, snap, acked);
    UnackedIsSuffix(es, start, first, queued, snap);
    var c := AckedCount(es, snap);
    first' := if c < first then first else if c > queued then queued else c;
    if queued == |es| && Exact(segments, es, acked) {
      assert |es[AckedCount(es, acked)..]| == |es[first..queued]|;
      assert first' == AckedCount(es, acked);
    }
  }

  lemma {:induction false} NextChunk(b: seq<byte>, sent: nat, n: nat, before: seq<byte>)
    requires sent + n <= |b|
    ensures before + b[..sent] + b[sent..][..n] == before + b[..sent + n]
  {
    assert b[..sent] + b[sent..][..n] == b[..sent + n];
    Assoc(before, b[..sent], b[sent..][..n]);
  }

  /** Of the acknowledgments, none beyond what was sent, the edge is the highest there was. */
  ghost predicate Highest(was: nat, infos: seq<AckInfo>, sent: nat, edge: nat) {
    && was <= edge && (forall i {:trigger infos[i]} :: 0 <= i < |infos| ==> Min(infos[i].ack, sent) <= edge)
    && (edge == was || exists i {:trigger infos[i]} :: 0 <= i < |infos| && edge == Min(infos[i].ack, sent))
  }

  lemma {:induction false} HighestNext(was: nat, infos: seq<AckInfo>, sent: nat, edge: nat, i: nat)
    requires i < |infos| && Highest(was, infos[..i], sent, edge)
    ensures Highest(was, infos[..i + 1], sent, Max(edge, Min(infos[i].ack, sent)))
  {
    var now, next := infos[..i], infos[..i + 1];
    assert next[i] == infos[i] && forall j :: 0 <= j < i ==> next[j] == now[j];
  }

  class Sender {
    var hostSeq: u32
    var sendAcked: u32
    var peerWnd: u16
    const scaled: bool
    const shift: nat
    const buffer: SendBuffer
    ghost const start: nat
    ghost var emitted: seq<Segment>
    ghost var log: seq<byte>  // the bytes of the emitted segments
    ghost var edges: seq<nat>
    ghost var first: nat
    ghost var queued: nat

    constructor (start: u32, peerWnd: u16, scaled: bool, shift: nat, capacity: nat)
      requires start <= HALF
      ensures Valid() && emitted == [] && log == [] && queued == 0 && fresh(buffer) && buffer.capacity == capacity
      ensures this.scaled == scaled && this.shift == shift && this.start == start
    {
      var b := new SendBuffer(capacity);
      hostSeq, sendAcked, this.peerWnd, this.scaled, this.shift := start, start, peerWnd, scaled, shift;
      buffer, this.start, emitted, log, edges, first, queued := b, start, [], [], [], 0, 0;
    }

    ghost predicate Valid()
      reads this, buffer
    {
      && InOrder(emitted, edges, start, hostSeq, sendAcked)
      && Queued(buffer.segments, emitted, first, queued, sendAcked)
      && |emitted| <= queued + 1 && buffer.Counted() && log == Join(emitted)
    }

    function Window(): (w: u32)
      reads this
      ensures w == PeerWindow(peerWnd, scaled, shift)
    {
      Scaled(peerWnd, scaled, shift)
    }

    /** The acknowledgment part of handleSegment, for a peer that acknowledges nothing unsent. */
    method HandleAck(info: AckInfo)
      requires Valid() && info.ack <= hostSeq
      modifies this`peerWnd, this`sendAcked, this`first, buffer
      ensures Valid() && peerWnd == info.window
      ensures sendAcked == if info.ack > old(sendAcked) then info.ack else old(sendAcked)
      ensures queued == |emitted| ==> info.ack <= old(sendAcked) || Exact(buffer.segments, emitted, sendAcked)
      ensures buffer.segments ==
              if info.ack > old(sendAcked) then Unacked(old(buffer.segments), info.ack) else old(buffer.segments)
    {
      peerWnd := info.window;
      if info.ack > sendAcked {
        ghost var f := AckStep(emitted, edges, start, hostSeq, sendAcked, buffer.segments, first, queued, info.ack);
        sendAcked := info.ack;
        buffer.Ack(info.ack);
        first := f;
      }
    }

    /** The peer's window is used up. */
    ghost predicate Shut()
      reads this
    {
      hostSeq - sendAcked >= PeerWindow(peerWnd, scaled, shift)
    }

    /** The segment sent last does not fit the queue. */
    ghost predicate Full()
      reads this, buffer
    {
      queued + 1 == |emitted| && |Join(buffer.segments)| + |emitted[queued].payload| > buffer.capacity
    }

    /** Nothing has been acknowledged. */
    twostate predicate Untouched()
      reads this, buffer
    {
      sendAcked == old(sendAcked) && buffer.segments == old(buffer.segments)
    }

    /** Acknowledgments that arrive while no lock is held; an honest peer acknowledges at most what was sent. */
    method HandleAcks(infos: seq<AckInfo>)
      requires Valid()
      modifies this`peerWnd, this`sendAcked, this`first, buffer
      ensures Valid() && Highest(old(sendAcked), infos, hostSeq, sendAcked)
      ensures peerWnd == if infos == [] then old(peerWnd) else infos[|infos| - 1].window
      ensures queued == |emitted| ==> Untouched() || Exact(buffer.segments, emitted, sendAcked)
    {
      for i := 0 to |infos|
        invariant Valid() && Highest(old(sendAcked), infos[..i], hostSeq, sendAcked)
        invariant peerWnd == if i == 0 then old(peerWnd) else infos[i - 1].window
        invariant queued == |emitted| ==> Untouched() || Exact(buffer.segments, emitted, sendAcked)
      {
        HighestNext(old(sendAcked), infos, hostSeq, sendAcked, i);
        HandleAck(infos[i].(ack := if infos[i].ack > hostSeq then hostSeq else infos[i].ack));
      }
      assert infos[..|infos|] == infos;
    }

    /** Write's locked part: cut the next chunk to the window, take its sequence numbers and send it. */
    method Emit(data: seq<byte>) returns (n: nat)
      requires Valid() && queued == |emitted| && data != [] && |log| + |data| < HALF
      modifies this`hostSeq, this`emitted, this`log, this`edges
      ensures Valid()
      ensures var inFlight, wnd := old(hostSeq) - sendAcked, PeerWindow(peerWnd, scaled, shift);
              n == if inFlight >= wnd then 0 else Min(|data|, Min(1460, wnd - inFlight))
      ensures n == 0 ==> emitted == old(emitted) && log == old(log) && hostSeq == old(hostSeq)
      ensures n > 0 ==> n <= |data| && hostSeq - sendAcked <= PeerWindow(peerWnd, scaled, shift)
      ensures n > 0 ==> edges == old(edges) + [sendAcked + PeerWindow(peerWnd, scaled, shift)]
      ensures n > 0 ==> hostSeq == old(hostSeq) + n
      ensures n > 0 ==> emitted == old(emitted) + [Segment(old(hostSeq), hostSeq, data[..n])]
      ensures n > 0 ==> log == old(log) + data[..n]
    {
      n := ChunkSize(hostSeq - sendAcked, Window(), |data|);
      if n > 0 {
        Send(data[..n], sendAcked + Window());
      }
    }

    /** Takes the next sequence numbers for a chunk that ends at the window's right edge or before, and sends it. */
    method Send(chunk: seq<byte>, ghost edge: nat)
      requires Valid() && queued == |emitted| && chunk != [] && |log| + |chunk| < HALF
      requires hostSeq + |chunk| <= edge
      modifies this`hostSeq, this`emitted, this`log, this`edges
      ensures Valid() && hostSeq == old(hostSeq) + |chunk| && log == old(log) + chunk
      ensures emitted == old(emitted) + [Segment(old(hostSeq), hostSeq, chunk)]
      ensures edges == old(edges) + [edge]
    {
      var s := Segment(hostSeq, hostSeq + |chunk|, chunk);
      EmitStep(emitted, edges, start, hostSeq, sendAcked, buffer.segments, first, s, edge);
      hostSeq, emitted, log, edges := s.seqEnd, emitted + [s], log + chunk, edges + [edge];
    }

    /** Offers the segment just sent to the retransmission queue. */
    method Enqueue(s: Segment) returns (ok: bool)
      requires Valid() && queued + 1 == |emitted| && s == emitted[queued]
      modifies this`queued, buffer
      ensures Valid()
      ensures queued == if ok then |emitted| else old(queued)
      ensures !ok ==> Full()
    {
      EnqueueStep(emitted, buffer.segments, first, queued, sendAcked, s);
      ok := buffer.Append(s);
      if ok {
        queued := queued + 1;
      }
    }

    /** Drops what had been acknowledged when `snap` was read; more may have been acknowledged since. */
    method Reconcile(snap: u32)
      requires Valid() && start <= snap <= sendAcked
      modifies this`first, buffer
      ensures Valid() && buffer.segments == Unacked(old(buffer.segments), snap)
      ensures queued == |emitted| && (snap == sendAcked || old(Exact(buffer.segments, emitted, sendAcked))) ==>
                Exact(buffer.segments, emitted, sendAcked)
    {
      ghost var f := StaleStep(emitted, edges, start, hostSeq, sendAcked, buffer.segments, first, queued, snap);
      buffer.Ack(snap);
      first := f;
    }

    /**
      Write. `schedule` holds the acknowledgments that arrive at each point where Write holds no lock;
      when all of it has passed and the window is shut or the queue is full, the call is still blocked and
      `done` is false.
     */
    method Write(b: seq<byte>, schedule: seq<seq<AckInfo>>) returns (sent: nat, done: bool, t: nat)
      requires Valid() && queued == |emitted| && |log| + |b| < HALF
      modifies this, buffer
      ensures Valid() && sent <= |b| && log == old(log) + b[..sent]
      ensures done ==> sent == |b| && queued == |emitted|
      ensures done && b != [] ==> Exact(buffer.segments, emitted, sendAcked)
      ensures !done ==> t == |schedule| && (Shut() || Full())
    {
      sent, done, t := 0, true, 0;
      assert log + b[..0] == log;
      while sent < |b|
        invariant Valid() && queued == |emitted| && sent <= |b| && t <= |schedule| && done
        invariant log == old(log) + b[..sent]
        invariant sent > 0 ==> Exact(buffer.segments, emitted, sendAcked)
        decreases |b| - sent
      {
        var n;
        n, done, t := WriteChunk(b[sent..], schedule, t);
        NextChunk(b, sent, n, old(log));
        sent := sent + n;
        if !done {
          return;
        }
      }
    }

    /** One turn of Write's loop: send a chunk and put it into the queue, waiting where need be. */
    method WriteChunk(data: seq<byte>, schedule: seq<seq<AckInfo>>, t: nat) returns (n: nat, ok: bool, t': nat)
      requires Valid() && queued == |emitted| && data != [] && |log| + |data| < HALF && t <= |schedule|
      modifies this, buffer
      ensures Valid() && t' <= |schedule| && n <= |data| && log == old(log) + data[..n]
      ensures ok ==> n > 0 && queued == |emitted| && Exact(buffer.segments, emitted, sendAcked)
      ensures !ok ==> t' == |schedule| && (Shut() || Full())
    {
      var seqno;
      seqno, n, t' := EmitWhenOpen(data, schedule, t);
      if n == 0 {
        assert log + data[..0] == log;
        return n, false, t';
      }
      var s := Segment(seqno, seqno + n, data[..n]);
      t' := Unlocked(schedule, t');
      ok, t' := EnqueueWhenRoom(s, schedule, t');
      if ok {
        t' := Settle(schedule, t');
      }
    }

    /** A point where Write holds no lock: the next acknowledgments of the schedule arrive. */
    method Unlocked(schedule: seq<seq<AckInfo>>, t: nat) returns (t': nat)
      requires Valid() && t <= |schedule|
      modifies this`peerWnd, this`sendAcked, this`first, buffer
      ensures Valid() && t <= t' <= |schedule| && (t < |schedule| ==> t' == t + 1) && sendAcked >= old(sendAcked)
      ensures t < |schedule| ==> Highest(old(sendAcked), schedule[t], hostSeq, sendAcked)
      ensures queued == |emitted| ==> Untouched() || Exact(buffer.segments, emitted, sendAcked)
    {
      t' := t;
      if t < |schedule| {
        HandleAcks(schedule[t]);
        t' := t + 1;
      }
    }

    /** Waits until the window is open, or the schedule has ended. */
    method AwaitWindow(schedule: seq<seq<AckInfo>>, t: nat) returns (t': nat)
      requires Valid() && t <= |schedule|
      modifies this`peerWnd, this`sendAcked, this`first, buffer
      ensures Valid() && t' <= |schedule| && (t' == |schedule| || hostSeq - sendAcked < Window())
    {
      t' := Unlocked(schedule, t);
      while hostSeq - sendAcked >= Window() && t' < |schedule|
        invariant Valid() && t' <= |schedule|
        decreases |schedule| - t'
      {
        t' := Unlocked(schedule, t');
      }
    }

    /** Sends the next chunk once the window lets it through. */
    method EmitWhenOpen(data: seq<byte>, schedule: seq<seq<AckInfo>>, t: nat) returns (seqno: u32, n: nat, t': nat)
      requires Valid() && queued == |emitted| && data != [] && |log| + |data| < HALF && t <= |schedule|
      modifies this`peerWnd, this`sendAcked, this`first, this`hostSeq, this`emitted, this`log, this`edges, buffer
      ensures Valid() && t' <= |schedule| && n <= |data|
      ensures n == 0 ==> emitted == old(emitted) && t' == |schedule| && Shut()
      ensures log == old(log) + data[..n]
      ensures n > 0 ==> seqno + n < TWO32 && emitted == old(emitted) + [Segment(seqno, seqno + n, data[..n])]
    {
      t' := AwaitWindow(schedule, t);
      assert log + data[..0] == log;
      seqno := hostSeq;
      n := Emit(data);
    }

    /** Reads what is acknowledged under the lock and drops it without; acknowledgments arrive before and after. */
    method Settle(schedule: seq<seq<AckInfo>>, t: nat) returns (t': nat)
      requires Valid() && t <= |schedule|
      modifies this`peerWnd, this`sendAcked, this`first, buffer
      ensures Valid() && t <= t' <= |schedule|
      ensures queued == |emitted| ==> Exact(buffer.segments, emitted, sendAcked)
    {
      t' := Unlocked(schedule, t);
      var snap := sendAcked;
      t' := Unlocked(schedule, t');
      Reconcile(snap);
    }

    /** Offers the segment, and once more after dropping what is acknowledged. */
    method EnqueueOrSettle(s: Segment, schedule: seq<seq<AckInfo>>, t: nat) returns (ok: bool, t': nat)
      requires Valid() && queued + 1 == |emitted| && s == emitted[queued] && t <= |schedule|
      modifies this`peerWnd, this`sendAcked, this`first, this`queued, buffer
      ensures Valid() && t <= t' <= |schedule| && queued == if ok then |emitted| else old(queued)
      ensures !ok ==> Full()
    {
      t' := t;
      ok := Enqueue(s);
      if !ok {
        t' := Settle(schedule, t');
        t' := Unlocked(schedule, t');
        ok := Enqueue(s);
      }
    }

    /** Waits until the queue has room. */
    method EnqueueWhenRoom(s: Segment, schedule: seq<seq<AckInfo>>, t: nat) returns (ok: bool, t': nat)
      requires Valid() && queued + 1 == |emitted| && s == emitted[queued] && t <= |schedule|
      modifies this`peerWnd, this`sendAcked, this`first, this`queued, buffer
      ensures Valid() && t' <= |schedule| && (ok ==> queued == |emitted|)
      ensures !ok ==> t' == |schedule| && Full()
    {
      ok, t' := EnqueueOrSettle(s, schedule, t);
      while !ok && t' < |schedule|
        invariant Valid() && t' <= |schedule| && queued == if ok then |emitted| else old(queued)
        invariant !ok ==> Full()
        decreases |schedule| - t', !ok
      {
        t' := Unlocked(schedule, t');
        ok, t' := EnqueueOrSettle(s, schedule, t');
      }
    }
  }
}
