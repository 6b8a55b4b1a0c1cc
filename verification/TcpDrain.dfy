/** Draining received payloads to a host socket in batches. */
module TcpDrain {
  import opened Bytes
  import opened Common

  /**
    What the receive channel yields, in order; a gap is a moment in which it is empty, and `Late` is the
    moment in which the read deadline passes.
   */
  datatype Item = Payload(data: seq<byte>) | Gap | Late | Eof

  /** The payloads up to the end-of-stream marker, or to the close of the channel. */
  function Payloads(items: seq<Item>): seq<byte> {
    if items == [] || items[0].Eof? then []
    else if items[0].Gap? || items[0].Late? then Payloads(items[1..])
    else items[0].data + Payloads(items[1..])
  }

  predicate Ends(items: seq<Item>) {
    items != [] && (items[0].Eof? || Ends(items[1..]))
  }

  datatype Next = Data(data: seq<byte>) | Empty | AtEof | Closed | TimedOut

  class Conn {
    var pending: seq<byte>
    var queue: seq<Item>
    var late: bool  // the read deadline has passed

    constructor (pending: seq<byte>, queue: seq<Item>)
      ensures this.pending == pending && this.queue == queue && !late
    {
      this.pending, this.queue, late := pending, queue, false;
    }

    /** All that is still to come. */
    function Rest(): seq<byte>
      reads this
    {
      pending + Payloads(queue)
    }

    function Rank(): nat
      reads this
    {
      |queue| + if pending != [] then 1 else 0
    }

    /** The read deadline does not pass. */
    predicate InTime()
      reads this
    {
      !late && Late !in queue
    }

    /** The state is as before but for what `r` took. */
    twostate predicate Took(r: Next)
      reads this
    {
      && (old(InTime()) ==> InTime())
      && match r
         case Data(data) => old(Rest()) == data + Rest() && Ends(queue) == old(Ends(queue)) && Rank() < old(Rank())
         case Empty => Rest() == old(Rest()) && Ends(queue) == old(Ends(queue)) && Rank() < old(Rank())
         case AtEof => old(Rest()) == [] && old(Ends(queue))
         case Closed => old(Rest()) == [] && !old(Ends(queue))
         case TimedOut => Rest() == old(Rest()) && Ends(queue) == old(Ends(queue)) && !old(InTime()) && pending == []
    }

    /** The deadline passes while nothing looks at it. */
    method PassDeadline()
      modifies this`queue, this`late
      ensures (queue != [] ==> !queue[0].Late?) && (late ==> !old(InTime())) && (old(InTime()) ==> InTime())
      ensures Payloads(queue) == old(Payloads(queue)) && Ends(queue) == old(Ends(queue)) && |queue| <= |old(queue)|
    {
      while queue != [] && queue[0].Late?
        invariant (late ==> !old(InTime())) && (old(InTime()) ==> InTime())
        invariant Payloads(queue) == old(Payloads(queue)) && Ends(queue) == old(Ends(queue)) && |queue| <= |old(queue)|
        decreases |queue|
      {
        queue, late := queue[1..], true;
      }
    }

    /** tryNextReadPayload, which does not look at the deadline. */
    method TryNext() returns (r: Next)
      modifies this
      ensures !r.TimedOut? && Took(r) && Rank() <= old(Rank()) && pending == []
      ensures old(pending) != [] ==> r == Data(old(pending)) && queue == old(queue)
    {
      if |pending| > 0 {
        r := Data(pending);
        pending := [];
        assert [] + Payloads(queue) == Payloads(queue);
        return;
      }
      PassDeadline();
      if queue == [] {
        return Closed;
      }
      var item := queue[0];
      queue := queue[1..];
      if item.Eof? {
        return AtEof;
      }
      assert [] + Payloads(queue) == Payloads(queue);
      r := if item.Gap? then Empty else Data(item.data);
    }

    /** nextReadPayload: waits through the gaps, until the deadline passes. */
    method NextPayload() returns (r: Next)
      modifies this
      ensures !r.Empty? && Took(r)
      ensures r.TimedOut? ==> late
      ensures old(pending == [] && late) ==> r.TimedOut?
    {
      if |pending| > 0 {
        r := TryNext();
        return;
      }
      while true
        invariant pending == [] && Rest() == old(Rest()) && Ends(queue) == old(Ends(queue))
        invariant (old(InTime()) ==> InTime()) && Rank() <= old(Rank()) && (old(late) ==> late)
        decreases Rank()
      {
        if late {
          return TimedOut;
        }
        if queue != [] && queue[0].Late? {
          queue, late := queue[1..], true;
          return TimedOut;
        }
        r := TryNext();
        if !r.Empty? {
          return;
        }
      }
    }
  }

  /** A host socket that may take any part of what it is given; unless it is reliable, it may fail. */
  class Writer {
    var out: seq<byte>
    const reliable: bool

    constructor (reliable: bool)
      ensures out == [] && this.reliable == reliable
    {
      out, this.reliable := [], reliable;
    }

    method Write(data: seq<byte>) returns (n: nat, fails: bool)
      modifies this`out
      ensures n <= |data| && out == old(out) + data[..n]
      ensures reliable ==> !fails && (data != [] ==> n > 0)
    {
      n :| n <= |data| && (data != [] && reliable ==> n > 0);
      fails := *;
      fails := fails && !reliable;
      out := out + data[..n];
    }
  }

  /** writeFull: all of the data, or a prefix of it and an error. */
  method WriteFull(w: Writer, data: seq<byte>) returns (n: nat, ok: bool)
    modifies w`out
    ensures n <= |data| && w.out == old(w.out) + data[..n] && (ok ==> n == |data|)
    ensures w.reliable ==> ok
  {
    n := 0;
    assert w.out + data[..0] == w.out;
    while n < |data|
      invariant n <= |data| && w.out == old(w.out) + data[..n]
    {
      var k, fails := w.Write(data[n..]);
      assert data[..n] + data[n..][..k] == data[..n + k];
      Assoc(old(w.out), data[..n], data[n..][..k]);
      n := n + k;
      if fails || k == 0 {
        return n, false;
      }
    }
    ok := true;
  }

  /** How draining ends: at the marker, with the channel closed before it, at the deadline, or with a failing writer. */
  datatype Outcome = Going | Finished | ClosedEarly | OutOfTime | WriteFailed

  /** Bytes on their way: written, batched, in hand and still to come. */
  function Flow(out: seq<byte>, batch: seq<byte>, data: seq<byte>, rest: seq<byte>): seq<byte> {
    out + (batch + (data + rest))
  }

  lemma {:induction false} FlowMoves(out: seq<byte>, batch: seq<byte>, data: seq<byte>, rest: seq<byte>)
    ensures Flow(out, batch, data, rest) == Flow(out + batch, [], data, rest)
    ensures Flow(out, batch, data, rest) == Flow(out, batch + data, [], rest)
    ensures Flow(out, [], data, rest) == Flow(out + data, [], [], rest)
    ensures Flow(out, batch, [], data + rest) == Flow(out, batch, data, rest)
    ensures Flow(out, [], [], rest) == out + rest
    ensures Flow(out, batch, [], []) == out + batch
  {
    Assoc(out, batch, data + rest);
    assert [] + (data + rest) == data + rest;
    Assoc(batch, data, rest);
    assert [] + rest == rest;
    Assoc(out, data, rest);
    assert batch + ([] + []) == batch;
  }

  /** Part of what was going to be written has been. */
  lemma {:induction false} PartIsPrefix(out: seq<byte>, batch: seq<byte>, data: seq<byte>, rest: seq<byte>, n: nat)
    requires n <= |batch|
    ensures out + batch[..n] <= Flow(out, batch, data, rest)
  {
    assert batch == batch[..n] + batch[n..];
    assert Flow(out, batch, data, rest) == out + batch[..n] + (batch[n..] + (data + rest));
  }

  ghost predicate Reports(o: Outcome, out: seq<byte>, total: seq<byte>, rest: seq<byte>, ends: bool, ends0: bool) {
    match o
    case Going => out + rest == total && ends == ends0
    case Finished => out == total && ends0
    case ClosedEarly => out == total && !ends0
    case OutOfTime => out + rest == total && ends == ends0
    case WriteFailed => out <= total
  }

  /** The batch goes out, in one full write. */
  method Flush(w: Writer, batch: seq<byte>, ghost data: seq<byte>, ghost rest: seq<byte>) returns (n: nat, ok: bool)
    modifies w`out
    ensures |w.out| == |old(w.out)| + n
    ensures ok ==> w.out == old(w.out) + batch
    ensures w.reliable ==> ok
    ensures w.out <= Flow(old(w.out), batch, data, rest)
  {
    n, ok := WriteFull(w, batch);
    PartIsPrefix(old(w.out), batch, data, rest, n);
    assert batch[..|batch|] == batch;
  }

  /** A payload as large as the batch buffer: the batch first, if there is one, then the payload itself. */
  method FlushBoth(w: Writer, batch: seq<byte>, data: seq<byte>, ghost rest: seq<byte>) returns (n: nat, ok: bool)
    modifies w`out
    ensures |w.out| == |old(w.out)| + n
    ensures ok ==> w.out + rest == Flow(old(w.out), batch, data, rest)
    ensures w.reliable ==> ok
    ensures w.out <= Flow(old(w.out), batch, data, rest)
  {
    n, ok := 0, true;
    FlowMoves(w.out, batch, data, rest);
    if |batch| > 0 {
      n, ok := Flush(w, batch, data, rest);
      if !ok {
        return;
      }
    }
    FlowMoves(w.out, [], data, rest);
    FlowMoves(w.out, data, [], rest);
    var k;
    k, ok := Flush(w, data, [], rest);
    n := n + k;
  }

  /** Appends a payload to the batch, which is written first if the payload does not fit behind it. */
  method Gather(w: Writer, batch: seq<byte>, data: seq<byte>, capacity: nat, ghost rest: seq<byte>)
    returns (n: nat, ok: bool, batch': seq<byte>)
    requires |data| < capacity && |batch| <= capacity
    modifies w`out
    ensures |w.out| == |old(w.out)| + n && |batch'| <= capacity && (w.reliable ==> ok)
    ensures ok ==> Flow(w.out, batch', [], rest) == Flow(old(w.out), batch, data, rest)
    ensures w.out <= Flow(old(w.out), batch, data, rest)
  {
    n, ok, batch' := 0, true, batch;
    FlowMoves(w.out, batch, data, rest);
    if |data| > capacity - |batch| {
      n, ok := Flush(w, batch, data, rest);
      batch' := [];
      if !ok {
        return;
      }
    }
    FlowMoves(w.out, batch', data, rest);
    batch' := batch' + data;
  }

  /** The write behind the inner loop. */
  method LastFlush(w: Writer, batch: seq<byte>, r: Next, ghost rest: seq<byte>, ghost ends0: bool)
    returns (n: nat, o: Outcome)
    requires !r.Data? && !r.TimedOut? && (r.AtEof? ==> rest == [] && ends0) && (r.Closed? ==> rest == [] && !ends0)
    modifies w`out
    ensures |w.out| == |old(w.out)| + n && (o.Going? ==> r.Empty?) && !o.OutOfTime? && (w.reliable ==> !o.WriteFailed?)
    ensures Reports(o, w.out, Flow(old(w.out), batch, [], rest), rest, ends0, ends0)
  {
    FlowMoves(w.out, batch, [], rest);
    var ok;
    n, ok := Flush(w, batch, [], rest);
    o := if !ok then WriteFailed else if r.AtEof? then Finished else if r.Closed? then ClosedEarly else Going;
  }

  /**
    The inner loop of WriteTo: gathers payloads into a batch of at most `capacity` bytes until the
    channel is empty for a moment, and writes them. A large payload goes out on its own, behind the batch.
   */
  method DrainBatch(c: Conn, w: Writer, capacity: nat, first: seq<byte>, ghost total: seq<byte>)
    returns (n: nat, o: Outcome)
    requires |first| < capacity && Flow(w.out, [], first, c.Rest()) == total
    modifies c, w`out
    ensures |w.out| == |old(w.out)| + n && c.Rank() <= old(c.Rank()) && (w.reliable ==> !o.WriteFailed?)
    ensures !o.OutOfTime? && (old(c.InTime()) ==> c.InTime())
    ensures Reports(o, w.out, total, c.Rest(), Ends(c.queue), old(Ends(c.queue)))
  {
    n := 0;
    var batch, data, k, ok := [], first, 0, true;
    var r := Empty;
    ghost var rest := c.Rest();
    while true
      invariant |data| < capacity && |batch| <= capacity
      invariant Flow(w.out, batch, data, c.Rest()) == total && Ends(c.queue) == old(Ends(c.queue))
      invariant |w.out| == |old(w.out)| + n && c.Rank() <= old(c.Rank()) && (old(c.InTime()) ==> c.InTime())
      decreases c.Rank()
    {
      rest := c.Rest();
      k, ok, batch := Gather(w, batch, data, capacity, rest);
      n := n + k;
      if !ok {
        return n, WriteFailed;
      }
      r := c.TryNext();
      if !r.Data? {
        break;
      }
      data := r.data;
      FlowMoves(w.out, batch, data, c.Rest());
      if |data| >= capacity {
        k, ok := FlushBoth(w, batch, data, c.Rest());
        n := n + k;
        return n, if ok then Going else WriteFailed;
      }
    }
    k, o := LastFlush(w, batch, r, rest, old(Ends(c.queue)));
    n := n + k;
  }

  /**
    WriteTo: the pending bytes and the queued payloads up to the end marker, in order, for every
    writer that takes partial writes; the count is what was written, also when the writer fails. At the
    read deadline what has not been written is still there.
   */
  method WriteTo(c: Conn, w: Writer, capacity: nat) returns (written: nat, o: Outcome)
    requires capacity > 0
    modifies c, w`out
    ensures !o.Going? && |w.out| == |old(w.out)| + written && (w.reliable ==> !o.WriteFailed?)
    ensures old(c.InTime()) ==> !o.OutOfTime?
    ensures Reports(o, w.out, old(w.out) + old(c.Rest()), c.Rest(), Ends(c.queue), old(Ends(c.queue)))
  {
    written := 0;
    ghost var total := w.out + c.Rest();
    while true
      invariant w.out + c.Rest() == total && Ends(c.queue) == old(Ends(c.queue))
      invariant |w.out| == |old(w.out)| + written && (old(c.InTime()) ==> c.InTime())
      decreases c.Rank()
    {
      var r := c.NextPayload();
      if !r.Data? {
        assert w.out + [] == w.out;
        return written, if r.AtEof? then Finished else if r.Closed? then ClosedEarly else OutOfTime;
      }
      FlowMoves(w.out, [], r.data, c.Rest());
      FlowMoves(w.out, [], [], r.data + c.Rest());
      var n;
      if |r.data| >= capacity {
        var ok;
        n, ok := FlushBoth(w, [], r.data, c.Rest());
        o := if ok then Going else WriteFailed;
      } else {
        n, o := DrainBatch(c, w, capacity, r.data, total);
      }
      written := written + n;
      if !o.Going? {
        return;
      }
    }
  }
}
