/**
  The bounded queue between the senders of an exec's input and the one goroutine that forwards it.
  Every method is one critical section, or one step of the forwarder.
 */
module ExecInputs {
  import opened Common

  const CAPACITY := 64
  const STDIN_LIMIT := 56
  const CONTROL_LIMIT := CAPACITY - 1

  datatype Kind = Stdin | StdinClose | Control
  datatype Input = Input(kind: Kind, data: string)
  datatype Verdict = Accepted | Closed | Overflow

  function Limit(k: Kind): nat {
    match k
    case Stdin => STDIN_LIMIT
    case StdinClose => CAPACITY
    case Control => CONTROL_LIMIT
  }

  function InHand(hand: Option<Input>): seq<Input> {
    if hand.None? then [] else [hand.value]
  }

  /** A closing input is the last that was accepted, if there is one. */
  ghost predicate ClosesLast(accepted: seq<Input>) {
    forall i {:trigger accepted[i]} :: 0 <= i < |accepted| - 1 ==> accepted[i].kind != StdinClose
  }

  ghost predicate HasClose(accepted: seq<Input>) {
    accepted != [] && accepted[|accepted| - 1].kind == StdinClose
  }

  /** What there is to pass on: everything but the closing input. */
  ghost function ToForward(accepted: seq<Input>): seq<Input> {
    if HasClose(accepted) then accepted[..|accepted| - 1] else accepted
  }

  lemma {:induction false} TakeFirst(sent: seq<Input>, queue: seq<Input>)
    requires queue != []
    ensures sent + [] + queue == sent + [queue[0]] + queue[1..]
  {}

  /** A closing input at the head of the queue is alone in it, and is the only one not passed on. */
  lemma {:induction false} CloseIsAlone(accepted: seq<Input>, sent: seq<Input>, queue: seq<Input>)
    requires ClosesLast(accepted) && accepted == sent + [] + queue && queue != [] && queue[0].kind == StdinClose
    ensures queue == [queue[0]] && sent == ToForward(accepted)
  {
    assert accepted[|sent|] == queue[0];
    assert sent + [] + queue == sent + queue;
  }

  datatype Step = Sends(input: Input) | ClosesDone | ClosesQueue | Takes | Delivers | Drops

  /** The fields of an exec as a value. */
  datatype Moment = Moment(queue: seq<Input>, closed: bool, done: bool, hand: Option<Input>, sent: seq<Input>,
                           forwarding: bool, accepted: seq<Input>, dropped: bool)

  /** An input is accepted up to 56 of data and 63 of control; the closing one has room of its own. */
  predicate Admits(a: Moment, k: Kind) {
    !a.closed && |a.queue| < match k { case Stdin => 56 case Control => 63 case StdinClose => 64 }
  }

  /** What one step does, if it can be taken. */
  function After(a: Moment, s: Step): Moment {
    match s
    case Sends(x) =>
      if !Admits(a, x.kind) then a
      else a.(queue := a.queue + [x], accepted := a.accepted + [x], closed := x.kind == StdinClose)
    case ClosesDone => a.(done := true)
    case ClosesQueue => if a.done then a.(closed := true) else a
    case Takes =>
      if !a.forwarding || a.hand.Some? then a
      else if a.queue == [] then a.(forwarding := !a.closed)
      else if a.queue[0].kind == StdinClose then a.(queue := a.queue[1..], forwarding := false)
      else a.(queue := a.queue[1..], hand := Some(a.queue[0]))
    case Delivers =>
      if a.forwarding && a.hand.Some? then a.(sent := a.sent + [a.hand.value], hand := None) else a
    case Drops =>
      if a.forwarding && a.hand.Some? && a.done then a.(forwarding := false, hand := None, dropped := true) else a
  }

  function AfterAll(a: Moment, steps: seq<Step>): Moment {
    if steps == [] then a else After(AfterAll(a, steps[..|steps| - 1]), steps[|steps| - 1])
  }

  class ActiveExec {
    var queue: seq<Input>
    var closed: bool
    var done: bool           // the done channel is closed
    var hand: Option<Input>  // what the forwarder has taken off the queue and not passed on
    var sent: seq<Input>     // what went out on the inputs channel
    var forwarding: bool     // the forwarder has not returned
    ghost var accepted: seq<Input>
    ghost var dropped: bool  // the forwarder gave up an input for the done channel

    constructor ()
      ensures Valid() && accepted == [] && sent == [] && queue == [] && hand == None
      ensures !closed && !done && forwarding && !dropped
    {
      queue, closed, done, hand, sent, forwarding, accepted := [], false, false, None, [], true, [];
      dropped := false;
    }

    ghost function Current(): Moment
      reads this
    {
      Moment(queue, closed, done, hand, sent, forwarding, accepted, dropped)
    }

    ghost predicate Valid()
      reads this
    {
      && |queue| <= CAPACITY && (!closed ==> |queue| < CAPACITY)
      && ClosesLast(accepted) && (HasClose(accepted) ==> closed) && sent <= accepted
      && (forwarding ==> !dropped && accepted == sent + InHand(hand) + queue)
      && (!forwarding ==> if dropped then done else closed && sent == ToForward(accepted))
      && (hand.Some? ==> hand.value.kind != StdinClose)
      && (forall x :: x in sent ==> x.kind != StdinClose)
    }

    /** sendInputWithDelivery */
    method SendInput(input: Input) returns (v: Verdict)
      requires Valid()
      modifies this`queue, this`accepted, this`closed
      ensures Valid()
      ensures v == if old(closed) then Closed else if |old(queue)| >= Limit(input.kind) then Overflow else Accepted
      ensures !old(closed) && input.kind == Stdin ==> (v == Accepted <==> |old(queue)| < 56)
      ensures !old(closed) && input.kind == Control ==> (v == Accepted <==> |old(queue)| < 63)
      ensures accepted == if v == Accepted then old(accepted) + [input] else old(accepted)
      ensures queue == if v == Accepted then old(queue) + [input] else old(queue)
      ensures closed == (old(closed) || (input.kind == StdinClose && v == Accepted))
      ensures input.kind == StdinClose && !old(closed) ==> v == Accepted
      ensures HasClose(old(accepted)) ==> v == Closed
      ensures Current() == After(old(Current()), Sends(input))
    {
      if closed {
        return Closed;
      }
      if |queue| >= Limit(input.kind) {
        return Overflow;
      }
      if input.kind == StdinClose {
        closed := true;
      }
      Assoc(sent + InHand(hand), queue, [input]);
      queue, accepted := queue + [input], accepted + [input];
      v := Accepted;
    }

    /** closeInputs, first half: the done channel, which the forwarder watches without the lock. */
    method CloseDone()
      requires Valid()
      modifies this`done
      ensures Valid() && done && Current() == After(old(Current()), ClosesDone)
    {
      done := true;
    }

    /** closeInputs, second half: until then inputs are still accepted. */
    method CloseQueue()
      requires Valid() && done
      modifies this`closed
      ensures Valid() && closed && Current() == After(old(Current()), ClosesQueue)
    {
      closed := true;
    }

    /** The forwarder takes the oldest input; it returns at a closing input, or when a closed queue is empty. */
    method Take() returns (ok: bool)
      requires Valid() && forwarding && hand.None?
      modifies this`queue, this`hand, this`forwarding
      ensures Valid() && (ok <==> old(queue) != [] || closed)
      ensures if old(queue) == [] then queue == [] && hand == None
              else queue == old(queue)[1..] &&
                   hand == if old(queue)[0].kind == StdinClose then None else Some(old(queue)[0])
      ensures forwarding <==> !(old(queue) == [] && closed) && !(old(queue) != [] && old(queue)[0].kind == StdinClose)
      ensures Current() == After(old(Current()), Takes)
    {
      if |queue| == 0 {
        assert sent + [] + [] == sent;
        forwarding := !closed;
        return closed;
      }
      var first := queue[0];
      TakeFirst(sent, queue);
      if first.kind == StdinClose {
        CloseIsAlone(accepted, sent, queue);
        forwarding := false;
      } else {
        hand := Some(first);
      }
      queue := queue[1..];
      ok := true;
    }

    /** The input goes out on the channel. */
    method Deliver()
      requires Valid() && forwarding && hand.Some?
      modifies this`sent, this`hand
      ensures Valid() && sent == old(sent) + [old(hand).value] && hand.None?
      ensures Current() == After(old(Current()), Delivers)
    {
      var h := hand.value;
      assert sent + [h] + queue == sent + [h] + [] + queue;
      sent, hand := sent + [h], None;
    }

    /** Once the done channel is closed the forwarder may return instead of passing the input on. */
    method Drop()
      requires Valid() && forwarding && hand.Some? && done
      modifies this`forwarding, this`hand, this`dropped
      ensures Valid() && !forwarding && dropped && hand == None && Current() == After(old(Current()), Drops)
    {
      forwarding, hand, dropped := false, None, true;
    }

    /** Any one step, if it can be taken. */
    method DoStep(s: Step)
      requires Valid()
      modifies this
      ensures Valid() && old(sent) <= sent && old(accepted) <= accepted
      ensures old(closed) ==> closed && accepted == old(accepted)
      ensures Current() == After(old(Current()), s)
    {
      match s
      case Sends(input) => var v := SendInput(input);
      case ClosesDone => CloseDone();
      case ClosesQueue => if done { CloseQueue(); }
      case Takes => if forwarding && hand.None? { var ok := Take(); }
      case Delivers => if forwarding && hand.Some? { Deliver(); }
      case Drops => if forwarding && hand.Some? && done { Drop(); }
    }

    /**
      Any interleaving. What was sent is a prefix of what was accepted, in order; while the forwarder runs
      nothing is lost, and when it has returned everything to be forwarded was, unless it was cut short.
      Nothing is accepted once the queue is closed.
     */
    method Run(steps: seq<Step>)
      requires Valid()
      modifies this
      ensures Valid() && sent <= accepted && |queue| <= CAPACITY
      ensures forwarding ==> accepted == sent + InHand(hand) + queue
      ensures !forwarding ==> if dropped then done else sent == ToForward(accepted)
      ensures old(sent) <= sent && (old(closed) ==> closed && accepted == old(accepted))
      ensures Current() == AfterAll(old(Current()), steps)
    {
      for i := 0 to |steps|
        invariant Valid() && old(sent) <= sent && (old(closed) ==> closed && accepted == old(accepted))
        invariant Current() == AfterAll(old(Current()), steps[..i])
      {
        TakeNext(steps, i);
        DoStep(steps[i]);
      }
      assert steps[..|steps|] == steps;
    }
  }
}
