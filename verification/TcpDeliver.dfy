/**
  From the reassembled segments to the receive channel. The handler gives up the connection's lock before it
  enqueues what it took, so that handlers of several threads may have segments in hand at the same time.
 */
module TcpDeliver {
  import opened Bytes
  import opened Common
  import opened TcpSegments
  import opened TcpReceive

  /** The numbers from `a` up to `b`. */
  function Upto(a: nat, b: nat): (s: seq<nat>)
    requires a <= b
    ensures |s| == b - a && forall i :: 0 <= i < |s| ==> s[i] == a + i
  {
    seq<nat>(b - a, i requires 0 <= i < b - a => a + i)
  }

  function InHand(hands: seq<seq<nat>>): nat {
    if hands == [] then 0 else InHand(hands[..|hands| - 1]) + |hands[|hands| - 1]|
  }

  /**
    The segments taken under the lock so far, numbered in that order; what each handler has in hand, the
    handlers in the order in which they held the lock; the numbers that went into the channel; and how many
    were dropped because it was full.
   */
  datatype State = State(all: seq<Segment>, hands: seq<seq<nat>>, sent: seq<nat>, dropped: nat) {
    /** No handler has anything left. */
    predicate Done() { InHand(hands) == 0 }

    /** Only segments that were taken went into the channel. */
    predicate Known() { forall i :: 0 <= i < |sent| ==> sent[i] < |all| }

    /** The segments in the channel. */
    function Channel(): (c: seq<Segment>)
      requires Known()
    {
      seq<Segment>(|sent|, i requires 0 <= i < |sent| => all[sent[i]])
    }
  }

  const START := State([], [], [], 0)

  /** A handler takes segments under the lock, or enqueues its next one; `room` is whether the channel has any. */
  datatype Step = Hands(out: seq<Segment>) | Enqueues(handler: nat, room: bool)

  predicate CanEnqueue(s: State, i: nat) { i < |s.hands| && s.hands[i] != [] }

  function After(s: State, step: Step): State {
    match step
    case Hands(out) => s.(all := s.all + out, hands := s.hands + [Upto(|s.all|, |s.all| + |out|)])
    case Enqueues(i, room) =>
      if !CanEnqueue(s, i) then s
      else
        var hands := s.hands[i := s.hands[i][1..]];
        if room then s.(hands := hands, sent := s.sent + [s.hands[i][0]])
        else s.(hands := hands, dropped := s.dropped + 1)
  }

  function RunOf(steps: seq<Step>): State {
    if steps == [] then START else After(RunOf(steps[..|steps| - 1]), steps[|steps| - 1])
  }

  /** The handler's turn: there is room, and no handler that held the lock before has anything left. */
  ghost predicate InTurn(s: State, step: Step) {
    step.Enqueues? && CanEnqueue(s, step.handler) ==>
      step.room && forall j {:trigger s.hands[j]} :: 0 <= j < step.handler ==> s.hands[j] == []
  }

  ghost predicate AllInTurn(steps: seq<Step>) {
    steps == [] || (AllInTurn(steps[..|steps| - 1]) && InTurn(RunOf(steps[..|steps| - 1]), steps[|steps| - 1]))
  }

  // ----- counting what is in hand -----

  lemma {:induction false} InHandChange(hands: seq<seq<nat>>, i: nat, h: seq<nat>)
    requires i < |hands|
    ensures InHand(hands[i := h]) == InHand(hands) - |hands[i]| + |h|
  {
    var n := |hands| - 1;
    if i < n {
      InHandChange(hands[..n], i, h);
      assert hands[i := h][..n] == hands[..n][i := h];
    } else {
      assert hands[i := h][..n] == hands[..n];
    }
  }

  lemma {:induction false} InHandNext(hands: seq<seq<nat>>, h: seq<nat>)
    ensures InHand(hands + [h]) == InHand(hands) + |h|
  {
    assert (hands + [h])[..|hands|] == hands;
  }

  /** In a prefix of the handlers there is nothing in hand exactly when each of them has nothing. */
  lemma {:induction false} NothingInHand(hands: seq<seq<nat>>)
    ensures InHand(hands) == 0 <==> forall j {:trigger hands[j]} :: 0 <= j < |hands| ==> hands[j] == []
  {
    if hands != [] {
      var n := |hands| - 1;
      NothingInHand(hands[..n]);
      assert InHand(hands) == 0 ==> hands[n] == [];
      if InHand(hands) == 0 {
        forall j | 0 <= j < |hands| ensures hands[j] == [] { if j < n { assert hands[..n][j] == []; } }
      }
      if forall j {:trigger hands[j]} :: 0 <= j < |hands| ==> hands[j] == [] {
        forall j | 0 <= j < n ensures hands[..n][j] == [] { assert hands[j] == []; }
        assert hands[n] == [];
      }
    }
  }

  /** Nothing is lost without being counted. */
  lemma {:induction false} Accounted(steps: seq<Step>)
    ensures var s := RunOf(steps); |s.sent| + s.dropped + InHand(s.hands) == |s.all|
  {
    if steps != [] {
      var s, step := RunOf(steps[..|steps| - 1]), steps[|steps| - 1];
      Accounted(steps[..|steps| - 1]);
      if step.Hands? {
        InHandNext(s.hands, Upto(|s.all|, |s.all| + |step.out|));
      } else if CanEnqueue(s, step.handler) {
        InHandChange(s.hands, step.handler, s.hands[step.handler][1..]);
      }
    }
  }

  // ----- order -----

  /** Handler `i` holds the numbers that follow those of the handlers before it. */
  ghost predicate HoldsAt(s: State, m: nat, i: nat)
    requires i < |s.hands|
  {
    var from := m + InHand(s.hands[..i]);
    s.hands[i] == Upto(from, from + |s.hands[i]|)
  }

  /** The channel has the first segments in order, and the handlers hold all others in order. */
  ghost predicate InOrder(s: State) {
    && s.dropped == 0 && s.sent == Upto(0, |s.sent|)
    && forall i {:trigger HoldsAt(s, |s.sent|, i)} :: 0 <= i < |s.hands| ==> HoldsAt(s, |s.sent|, i)
  }

  /** The channel lacks a segment, or has one in the wrong place. */
  ghost predicate Spoiled(s: State) {
    s.dropped > 0 || exists k {:trigger s.sent[k]} :: 0 <= k < |s.sent| && s.sent[k] != k
  }

  lemma {:induction false} HandsKeepOrder(s: State, out: seq<Segment>)
    requires InOrder(s) && |s.sent| + s.dropped + InHand(s.hands) == |s.all|
    ensures InOrder(After(s, Hands(out)))
  {
    var s' := After(s, Hands(out));
    forall i | 0 <= i < |s'.hands| ensures HoldsAt(s', |s'.sent|, i) {
      assert s'.hands[..i] == s.hands[..i];
      if i < |s.hands| { assert HoldsAt(s, |s.sent|, i); } else { assert s.hands[..i] == s.hands; }
    }
  }

  /** The next segment of handler `i` is the next of the stream exactly if no handler before it has any. */
  lemma {:induction false} FirstInHand(s: State, i: nat)
    requires InOrder(s) && CanEnqueue(s, i)
    ensures s.hands[i][0] == |s.sent| <==> forall j {:trigger s.hands[j]} :: 0 <= j < i ==> s.hands[j] == []
  {
    assert HoldsAt(s, |s.sent|, i);
    NothingInHand(s.hands[..i]);
    if forall j {:trigger s.hands[j]} :: 0 <= j < i ==> s.hands[j] == [] {
      forall j | 0 <= j < i ensures s.hands[..i][j] == [] { assert s.hands[j] == []; }
    }
    if InHand(s.hands[..i]) == 0 {
      forall j | 0 <= j < i ensures s.hands[j] == [] { assert s.hands[..i][j] == []; }
    }
  }

  lemma {:induction false} TurnKeepsOrder(s: State, i: nat)
    requires InOrder(s) && CanEnqueue(s, i) && InTurn(s, Enqueues(i, true))
    ensures InOrder(After(s, Enqueues(i, true)))
  {
    var s' := After(s, Enqueues(i, true));
    FirstInHand(s, i);
    assert s'.sent == Upto(0, |s.sent| + 1);
    forall k | 0 <= k < |s'.hands| ensures HoldsAt(s', |s'.sent|, k) {
      assert HoldsAt(s, |s.sent|, k) && HoldsAt(s, |s.sent|, i);
      if k <= i {
        assert s'.hands[..k] == s.hands[..k];
        NothingInHand(s.hands[..k]);
        forall j | 0 <= j < k ensures s.hands[..k][j] == [] { assert s.hands[j] == []; }
      } else {
        assert s'.hands[..k] == s.hands[..k][i := s.hands[i][1..]];
        InHandChange(s.hands[..k], i, s.hands[i][1..]);
      }
    }
  }

  /** A segment enqueued out of turn, or dropped, spoils the channel. */
  lemma {:induction false} OutOfTurnSpoils(s: State, step: Step)
    requires InOrder(s) && !InTurn(s, step)
    ensures Spoiled(After(s, step))
  {
    FirstInHand(s, step.handler);
    var s' := After(s, step);
    if step.room { assert s'.sent[|s.sent|] == s.hands[step.handler][0]; }
  }

  lemma {:induction false} StaysSpoiled(s: State, step: Step)
    requires Spoiled(s)
    ensures Spoiled(After(s, step))
  {
    var s' := After(s, step);
    if s.dropped == 0 {
      var k :| 0 <= k < |s.sent| && s.sent[k] != k;
      assert s'.sent[k] == s.sent[k];
    }
  }

  /** A run either keeps the order, if every handler enqueues in turn, or spoils the channel for good. */
  lemma {:induction false} OrderedOrSpoiled(steps: seq<Step>)
    ensures if AllInTurn(steps) then InOrder(RunOf(steps)) else Spoiled(RunOf(steps))
  {
    if steps == [] {
      assert [] == Upto(0, 0);
    } else {
      var n := |steps| - 1;
      var s, step := RunOf(steps[..n]), steps[n];
      OrderedOrSpoiled(steps[..n]);
      if !AllInTurn(steps[..n]) {
        StaysSpoiled(s, step);
      } else if !InTurn(s, step) {
        OutOfTurnSpoils(s, step);
      } else if step.Hands? {
        Accounted(steps[..n]);
        HandsKeepOrder(s, step.out);
      } else if CanEnqueue(s, step.handler) {
        TurnKeepsOrder(s, step.handler);
      }
    }
  }

  /**
    For every run at whose end nothing is in hand: all segments are in the channel in the order of the
    stream exactly when every handler enqueued in turn and found room.
   */
  lemma {:induction false} DeliveryExact(steps: seq<Step>)
    requires RunOf(steps).Done()
    ensures var s := RunOf(steps); s.sent == Upto(0, |s.all|) <==> AllInTurn(steps)
  {
    OrderedOrSpoiled(steps);
    Accounted(steps);
  }

  /** While every handler enqueues in turn the channel has a prefix of what was taken under the lock. */
  lemma {:induction false} ChannelIsPrefix(steps: seq<Step>)
    requires AllInTurn(steps)
    ensures var s := RunOf(steps);
            s.Known() && |s.sent| <= |s.all| && s.Channel() == s.all[..|s.sent|] && Join(s.Channel()) <= Join(s.all)
  {
    OrderedOrSpoiled(steps);
    Accounted(steps);
    var s := RunOf(steps);
    assert s.all == s.all[..|s.sent|] + s.all[|s.sent|..];
    JoinAppend(s.all[..|s.sent|], s.all[|s.sent|..]);
  }

  /** Two handlers with a segment each, of which the second enqueues first. */
  lemma {:induction false} LaterHandlerFirst(a: Segment, b: Segment)
    ensures var s := RunOf([Hands([a]), Hands([b]), Enqueues(1, true), Enqueues(0, true)]);
            s.Done() && s.sent == [1, 0] && s.all == [a, b]
  {
    var steps := [Hands([a]), Hands([b]), Enqueues(1, true), Enqueues(0, true)];
    var s1, s2 := State([a], [[0]], [], 0), State([a, b], [[0], [1]], [], 0);
    var s3, s4 := State([a, b], [[0], []], [1], 0), State([a, b], [[], []], [1, 0], 0);
    assert Upto(0, 1) == [0] && Upto(1, 2) == [1] && [[0]] + [[1]] == [[0], [1]] && [a] + [b] == [a, b];
    assert After(START, steps[0]).all == [a] && After(START, steps[0]).hands == [[0]];
    assert After(s1, steps[1]).hands == s2.hands;
    assert [1][1..] == [] && s2.hands[1 := []] == s3.hands && [] + [1] == [1];
    assert [0][1..] == [] && s3.hands[0 := []] == s4.hands && [1] + [0] == [1, 0];
    assert steps[..3][..2] == steps[..2] && steps[..2][..1] == steps[..1] && steps[..1][..0] == [];
    assert RunOf(steps[..1]) == s1;
    assert RunOf(steps[..2]) == s2;
    assert RunOf(steps[..3]) == s3;
    assert RunOf(steps) == s4;
    NothingInHand(s4.hands);
  }

  /** A segment arrives at some handler, or a handler enqueues. */
  datatype Event = Arrives(s: Segment) | Goes(handler: nat, room: bool)

  predicate Matches(e: Event, step: Step) {
    match e
    case Arrives(_) => step.Hands?
    case Goes(i, room) => step == Enqueues(i, room)
  }

  ghost predicate StepsMatch(events: seq<Event>, steps: seq<Step>, n: nat) {
    n <= |events| && n <= |steps| && forall i :: 0 <= i < n ==> Matches(events[i], steps[i])
  }

  lemma {:induction false} StepsNext(events: seq<Event>, steps: seq<Step>, step: Step, n: nat)
    requires n < |events| && |steps| == n && StepsMatch(events, steps, n) && Matches(events[n], step)
    ensures StepsMatch(events, steps + [step], n + 1) && RunOf(steps + [step]) == After(RunOf(steps), step)
  {
    assert (steps + [step])[..n] == steps;
  }

  /** The segments that arrive. */
  function Arrivals(events: seq<Event>): seq<Segment> {
    if events == [] then []
    else
      var before, e := Arrivals(events[..|events| - 1]), events[|events| - 1];
      if e.Arrives? then before + [e.s] else before
  }

  /** How far the receiver is after the events. */
  function Served(first: Progress, events: seq<Event>, maxGaps: nat): Progress {
    ReceiveAll(first, Arrivals(events), maxGaps)
  }

  lemma {:induction false} ServedNext(first: Progress, events: seq<Event>, n: nat, maxGaps: nat)
    requires n < |events|
    ensures var was := Served(first, events[..n], maxGaps);
            Served(first, events[..n + 1], maxGaps) ==
            if events[n].Arrives? then Receive(was, events[n].s, maxGaps) else was
  {
    TakeNext(events, n);
    var ss := Arrivals(events[..n]);
    if events[n].Arrives? { assert (ss + [events[n].s])[..|ss|] == ss; }
  }

  /** One event: a segment goes through the receiver and into a new handler's hand, or on from there. */
  method Meet(r: Receiver, e: Event, s: State) returns (s': State, ghost step: Step)
    requires r.Valid() && (e.Arrives? ==> TrueSlice(e.s, r.stream, r.isn)) && Join(s.all) == r.delivered
    modifies r, r.buffer
    ensures r.Valid() && Matches(e, step) && s' == After(s, step) && Join(s'.all) == r.delivered
    ensures var was := Progress(old(r.guestSeq), old(r.buffer.segments), s.all);
            Progress(r.guestSeq, r.buffer.segments, s'.all) ==
            if e.Arrives? then Receive(was, e.s, r.buffer.maxGaps) else was
  {
    match e
    case Arrives(segment) =>
      var out := r.HandleData(segment, s.all);
      JoinAppend(s.all, out);
      s', step := After(s, Hands(out)), Hands(out);
    case Goes(i, room) =>
      s', step := After(s, Enqueues(i, room)), Enqueues(i, room);
  }

  /** The events, one after another. */
  method MeetAll(r: Receiver, events: seq<Event>) returns (s: State, ghost steps: seq<Step>)
    requires r.Valid() && r.delivered == []
    requires forall e :: e in events && e.Arrives? ==> TrueSlice(e.s, r.stream, r.isn)
    modifies r, r.buffer
    ensures r.Valid() && s == RunOf(steps) && Join(s.all) == r.delivered && |steps| == |events|
    ensures forall i :: 0 <= i < |events| ==> Matches(events[i], steps[i])
    ensures Progress(r.guestSeq, r.buffer.segments, s.all) ==
            Served(Progress(old(r.guestSeq), old(r.buffer.segments), []), events, r.buffer.maxGaps)
  {
    s, steps := START, [];
    ghost var first := Progress(r.guestSeq, r.buffer.segments, []);
    for n := 0 to |events|
      invariant r.Valid() && s == RunOf(steps) && Join(s.all) == r.delivered && |steps| == n
      invariant StepsMatch(events, steps, n)
      invariant Progress(r.guestSeq, r.buffer.segments, s.all) == Served(first, events[..n], r.buffer.maxGaps)
    {
      ServedNext(first, events, n, r.buffer.maxGaps);
      ghost var step;
      s, step := Meet(r, events[n], s);
      StepsNext(events, steps, step, n);
      steps := steps + [step];
    }
    assert events[..|events|] == events;
  }

  /**
    Any interleaving of any number of handlers. As long as they enqueue in turn, the bytes in the channel are
    a prefix of the stream; when nothing is in hand, all is there in order exactly if they did.
   */
  method Serve(r: Receiver, events: seq<Event>) returns (s: State, ghost steps: seq<Step>)
    requires r.Valid() && r.delivered == []
    requires forall e :: e in events && e.Arrives? ==> TrueSlice(e.s, r.stream, r.isn)
    modifies r, r.buffer
    ensures r.Valid() && s == RunOf(steps) && Join(s.all) == r.delivered && r.delivered <= r.stream
    ensures s.Done() ==> (s.sent == Upto(0, |s.all|) <==> AllInTurn(steps))
    ensures AllInTurn(steps) ==> s.Known() && Join(s.Channel()) <= r.stream
    ensures Progress(r.guestSeq, r.buffer.segments, s.all) ==
            Served(Progress(old(r.guestSeq), old(r.buffer.segments), []), events, r.buffer.maxGaps)
    ensures |steps| == |events|
    ensures forall i :: 0 <= i < |events| ==> Matches(events[i], steps[i])
  {
    s, steps := MeetAll(r, events);
    if s.Done() { DeliveryExact(steps); }
    if AllInTurn(steps) { ChannelIsPrefix(steps); }
  }
}
