/**
  Operations of one VM, each waiting for the one started before it. An operation's completion channel is
  known by the operation's own number; closing the channel and finishing are one step.
 */
module OperationChain {
  import opened Common

  type Vm = string
  type Id = nat

  datatype Stage = Waiting | Running | Finished

  /** The goroutine of an operation: its VM, the channel it waits for, and how far it has come. */
  datatype Op = Op(vm: Vm, previous: Option<Id>, stage: Stage)

  type Ops = map<Id, Op>

  /** The channel an operation waits for is closed. */
  predicate Ready(ops: Ops, id: Id)
    requires id in ops
  {
    var p := ops[id].previous;
    p.None? || (p.value in ops && ops[p.value].stage == Finished)
  }

  /** Operation `order[i]` of a VM, when the first `cut` have finished. */
  ghost predicate InTurnAt(order: seq<Id>, cut: nat, ops: Ops, i: nat)
    requires i < |order|
  {
    && order[i] in ops
    && (ops[order[i]].stage == Finished <==> i < cut)
    && (ops[order[i]].stage == Running ==> i == cut)
    && (ops[order[i]].previous == None || (i > 0 && ops[order[i]].previous == Some(order[i - 1])))
    && (i > cut ==> ops[order[i]].previous.Some?)
  }

  /**
    The operations of one VM, in the order in which they were started: some have finished, the next one
    waits or runs, the others wait, each for the one before it.
   */
  ghost predicate InTurn(order: seq<Id>, cut: nat, ops: Ops) {
    && cut <= |order|
    && (forall i {:trigger InTurnAt(order, cut, ops, i)} :: 0 <= i < |order| ==> InTurnAt(order, cut, ops, i))
    && (forall i, j :: 0 <= i < j < |order| ==> order[i] != order[j])
  }

  /** The tail entry is there exactly while an operation is outstanding, and is the latest one's channel. */
  ghost predicate TailIs(order: seq<Id>, cut: nat, tail: Option<Id>) {
    tail == if cut < |order| then Some(order[|order| - 1]) else None
  }

  // ----- steps on one VM's operations -----

  lemma {:induction false} StartKeeps(order: seq<Id>, cut: nat, ops: Ops, id: Id, op: Op, tail: Option<Id>)
    requires InTurn(order, cut, ops) && TailIs(order, cut, tail)
    requires id !in ops && op.stage == Waiting && op.previous == tail
    ensures InTurn(order + [id], cut, ops[id := op]) && TailIs(order + [id], cut, Some(id))
  {
    var order', ops' := order + [id], ops[id := op];
    forall i | 0 <= i < |order'| ensures InTurnAt(order', cut, ops', i) {
      if i < |order| { assert InTurnAt(order, cut, ops, i); }
    }
    forall i, j | 0 <= i < j < |order'| ensures order'[i] != order'[j] {
      assert InTurnAt(order, cut, ops, i);
    }
  }

  /** A waiting operation whose turn has come is the first that has not finished. */
  lemma {:induction false} ReadyIsFirst(order: seq<Id>, cut: nat, ops: Ops, i: nat)
    requires InTurn(order, cut, ops) && i < |order| && order[i] in ops && ops[order[i]].stage != Finished
    ensures Ready(ops, order[i]) <==> i == cut
  {
    assert InTurnAt(order, cut, ops, i);
    if i > 0 { assert InTurnAt(order, cut, ops, i - 1); }
  }

  lemma {:induction false} StageKeeps(order: seq<Id>, cut: nat, ops: Ops, s: Stage)
    requires InTurn(order, cut, ops) && cut < |order| && order[cut] in ops && s != Waiting
    ensures InTurn(order, if s == Finished then cut + 1 else cut, ops[order[cut] := ops[order[cut]].(stage := s)])
  {
    var id, cut' := order[cut], if s == Finished then cut + 1 else cut;
    var ops' := ops[id := ops[id].(stage := s)];
    forall i | 0 <= i < |order| ensures InTurnAt(order, cut', ops', i) {
      assert InTurnAt(order, cut, ops, i);
      if i > 0 { assert InTurnAt(order, cut, ops, i - 1); }
    }
  }

  /** Nothing that happens to another VM's operations matters. */
  lemma {:induction false} OthersKeep(order: seq<Id>, cut: nat, ops: Ops, id: Id, op: Op)
    requires InTurn(order, cut, ops) && id !in order
    ensures InTurn(order, cut, ops[id := op])
  {
    var ops' := ops[id := op];
    forall i | 0 <= i < |order| ensures InTurnAt(order, cut, ops', i) {
      assert InTurnAt(order, cut, ops, i);
      if i > 0 { assert InTurnAt(order, cut, ops, i - 1); }
    }
  }

  /** An operation that gives up while it waits: its channel closes, and it never runs. */
  function GiveUp(ops: Ops, id: Id): Ops
    requires id in ops
  {
    ops[id := ops[id].(stage := Finished)]
  }

  /** Giving up keeps the operations in turn exactly when the operation's turn had come. */
  lemma {:induction false} GiveUpExact(order: seq<Id>, cut: nat, ops: Ops, k: nat)
    requires InTurn(order, cut, ops) && k < |order| && order[k] in ops && ops[order[k]].stage == Waiting
    ensures (exists cut': nat :: InTurn(order, cut', GiveUp(ops, order[k]))) <==> Ready(ops, order[k])
  {
    ReadyIsFirst(order, cut, ops, k);
    var ops' := GiveUp(ops, order[k]);
    if k == cut {
      StageKeeps(order, cut, ops, Finished);
      assert InTurn(order, cut + 1, ops');
    } else {
      assert InTurnAt(order, cut, ops, k) && InTurnAt(order, cut, ops, cut);
      forall cut': nat ensures !InTurn(order, cut', ops') {
        assert InTurn(order, cut', ops') ==> InTurnAt(order, cut', ops', cut);
        assert InTurn(order, cut', ops') ==> InTurnAt(order, cut', ops', k);
      }
    }
  }

  /** A second operation that is cancelled while it waits lets the third one run beside the first. */
  lemma {:induction false} CancelledWhileWaiting(vm: Vm)
    ensures var ops: Ops :=
              map[1 := Op(vm, None, Running), 2 := Op(vm, Some(1), Waiting), 3 := Op(vm, Some(2), Waiting)];
            && InTurn([1, 2, 3], 0, ops) && !Ready(ops, 3)
            && GiveUp(ops, 2)[1].stage == Running && Ready(GiveUp(ops, 2), 3)
  {
    var order := [1, 2, 3];
    var ops: Ops := map[1 := Op(vm, None, Running), 2 := Op(vm, Some(1), Waiting), 3 := Op(vm, Some(2), Waiting)];
    assert InTurnAt(order, 0, ops, 0) && InTurnAt(order, 0, ops, 1) && InTurnAt(order, 0, ops, 2);
  }

  // ----- the registry -----

  /** The operations of a VM in start order, and how many of them have finished. */
  datatype Line = Line(order: seq<Id>, cut: nat)

  datatype Step = Starts(vm: Vm) | Begins(id: Id) | Finishes(id: Id) | GivesUp(id: Id)

  ghost predicate LineOk(vm: Vm, line: Line, ops: Ops, tail: Option<Id>) {
    && InTurn(line.order, line.cut, ops) && TailIs(line.order, line.cut, tail)
    && forall i {:trigger line.order[i]} :: 0 <= i < |line.order| ==>
         line.order[i] in ops && ops[line.order[i]].vm == vm
  }

  function TailOf(tails: map<Vm, Id>, vm: Vm): Option<Id> {
    if vm in tails then Some(tails[vm]) else None
  }

  /** Every VM's operations are in turn. */
  ghost predicate LinesOk(lines: map<Vm, Line>, ops: Ops, tails: map<Vm, Id>) {
    forall vm {:trigger lines[vm]} :: vm in lines ==> LineOk(vm, lines[vm], ops, TailOf(tails, vm))
  }

  /** Every operation is in its VM's line. */
  ghost predicate Placed(lines: map<Vm, Line>, ops: Ops) {
    forall id {:trigger ops[id]} :: id in ops ==> ops[id].vm in lines && id in lines[ops[id].vm].order
  }

  ghost predicate AllOk(lines: map<Vm, Line>, ops: Ops, tails: map<Vm, Id>) {
    LinesOk(lines, ops, tails) && Placed(lines, ops) && tails.Keys <= lines.Keys
  }

  /** A change to one VM's line and to one of its operations leaves the other lines as they are. */
  lemma {:induction false} OtherLines(lines: map<Vm, Line>, ops: Ops, tails: map<Vm, Id>, vm: Vm, line: Line, id: Id,
                                      op: Op, tails': map<Vm, Id>)
    requires LinesOk(lines, ops, tails) && LineOk(vm, line, ops[id := op], TailOf(tails', vm))
    requires id in ops ==> ops[id].vm == vm
    requires forall v :: v != vm ==> TailOf(tails', v) == TailOf(tails, v)
    ensures LinesOk(lines[vm := line], ops[id := op], tails')
  {
    forall v | v in lines && v != vm ensures LineOk(v, lines[v], ops[id := op], TailOf(tails', v)) {
      assert LineOk(v, lines[v], ops, TailOf(tails, v));
      assert id !in lines[v].order;
      OthersKeep(lines[v].order, lines[v].cut, ops, id, op);
    }
  }

  lemma {:induction false} PlacedStill(lines: map<Vm, Line>, ops: Ops, vm: Vm, line: Line, id: Id, op: Op)
    requires Placed(lines, ops) && op.vm == vm && id in line.order
    requires vm in lines ==> forall x :: x in lines[vm].order ==> x in line.order
    ensures Placed(lines[vm := line], ops[id := op])
  {}

  lemma {:induction false} StartStep(lines: map<Vm, Line>, ops: Ops, tails: map<Vm, Id>, vm: Vm, id: Id, line: Line)
    requires AllOk(lines, ops, tails) && id !in ops && line == if vm in lines then lines[vm] else Line([], 0)
    ensures AllOk(lines[vm := Line(line.order + [id], line.cut)], ops[id := Op(vm, TailOf(tails, vm), Waiting)],
                  tails[vm := id])
  {
    var op, line' := Op(vm, TailOf(tails, vm), Waiting), Line(line.order + [id], line.cut);
    StartKeeps(line.order, line.cut, ops, id, op, TailOf(tails, vm));
    assert LineOk(vm, line', ops[id := op], Some(id));
    OtherLines(lines, ops, tails, vm, line', id, op, tails[vm := id]);
    PlacedStill(lines, ops, vm, line', id, op);
  }

  /** The operation's turn: the first of its VM that has not finished. */
  ghost predicate AtTurn(lines: map<Vm, Line>, ops: Ops, id: Id)
    requires id in ops
  {
    ops[id].vm in lines && var line := lines[ops[id].vm]; line.cut < |line.order| && line.order[line.cut] == id
  }

  /** An operation that runs, or that may begin, is at its turn. */
  lemma {:induction false} TurnHasCome(lines: map<Vm, Line>, ops: Ops, tails: map<Vm, Id>, id: Id)
    requires AllOk(lines, ops, tails) && id in ops
    requires ops[id].stage == Running || (ops[id].stage == Waiting && Ready(ops, id))
    ensures AtTurn(lines, ops, id)
  {
    var line := lines[ops[id].vm];
    var i :| 0 <= i < |line.order| && line.order[i] == id;
    assert InTurnAt(line.order, line.cut, ops, i);
    ReadyIsFirst(line.order, line.cut, ops, i);
  }

  lemma {:induction false} RunStep(lines: map<Vm, Line>, ops: Ops, tails: map<Vm, Id>, id: Id)
    requires AllOk(lines, ops, tails) && id in ops && AtTurn(lines, ops, id)
    ensures AllOk(lines, ops[id := ops[id].(stage := Running)], tails)
  {
    var vm, op := ops[id].vm, ops[id].(stage := Running);
    StageKeeps(lines[vm].order, lines[vm].cut, ops, Running);
    OtherLines(lines, ops, tails, vm, lines[vm], id, op, tails);
    PlacedStill(lines, ops, vm, lines[vm], id, op);
    assert lines[vm := lines[vm]] == lines;
  }

  lemma {:induction false} FinishStep(lines: map<Vm, Line>, ops: Ops, tails: map<Vm, Id>, id: Id, vm: Vm, line: Line,
                                      tails': map<Vm, Id>)
    requires AllOk(lines, ops, tails) && id in ops && AtTurn(lines, ops, id) && vm == ops[id].vm && line == lines[vm]
    requires tails' == if TailOf(tails, vm) == Some(id) then tails - {vm} else tails
    ensures AllOk(lines[vm := Line(line.order, line.cut + 1)], ops[id := ops[id].(stage := Finished)], tails')
  {
    var op, line' := ops[id].(stage := Finished), Line(line.order, line.cut + 1);
    StageKeeps(line.order, line.cut, ops, Finished);
    OtherLines(lines, ops, tails, vm, line', id, op, tails');
    PlacedStill(lines, ops, vm, line', id, op);
  }

  // ----- the registry as a value -----

  /** The channels that new operations wait for, the operations, and the next number. */
  datatype State = State(tails: map<Vm, Id>, ops: Ops, next: Id)

  /** The deferred section: the channel closes, and the tail goes if it is still this operation's. */
  function Closed(s: State, id: Id): State
    requires id in s.ops
  {
    var vm := s.ops[id].vm;
    State(if TailOf(s.tails, vm) == Some(id) then s.tails - {vm} else s.tails, GiveUp(s.ops, id), s.next)
  }

  /** A step, which does nothing where it cannot be taken; a waiting operation may give up at any time. */
  function After(s: State, step: Step): State {
    match step
    case Starts(vm) =>
      State(s.tails[vm := s.next], s.ops[s.next := Op(vm, TailOf(s.tails, vm), Waiting)], s.next + 1)
    case Begins(id) =>
      if id in s.ops && s.ops[id].stage == Waiting && Ready(s.ops, id)
      then s.(ops := s.ops[id := s.ops[id].(stage := Running)]) else s
    case Finishes(id) => if id in s.ops && s.ops[id].stage == Running then Closed(s, id) else s
    case GivesUp(id) => if id in s.ops && s.ops[id].stage == Waiting then Closed(s, id) else s
  }

  function AfterAll(s: State, steps: seq<Step>): State
    decreases steps
  {
    if steps == [] then s else AfterAll(After(s, steps[0]), steps[1..])
  }

  /** No operation gives up before its turn. */
  predicate InTime(s: State, step: Step) {
    step.GivesUp? && step.id in s.ops && s.ops[step.id].stage == Waiting ==> Ready(s.ops, step.id)
  }

  predicate AllInTime(s: State, steps: seq<Step>)
    decreases steps
  {
    steps == [] || (InTime(s, steps[0]) && AllInTime(After(s, steps[0]), steps[1..]))
  }

  ghost predicate Orderly(lines: map<Vm, Line>, s: State) {
    AllOk(lines, s.ops, s.tails) && forall id :: id in s.ops ==> id < s.next
  }

  predicate RunsIn(ops: Ops, id: Id, vm: Vm) { id in ops && ops[id].vm == vm && ops[id].stage == Running }

  /** Two operations of the VM run at once. */
  ghost predicate Overlaps(s: State, vm: Vm) {
    exists a, b :: RunsIn(s.ops, a, vm) && RunsIn(s.ops, b, vm) && a != b
  }

  /** Steps in which nobody gives up before its turn, and which still lead to two running operations. */
  ghost predicate Collides(s: State, vm: Vm, steps: seq<Step>) {
    AllInTime(s, steps) && Overlaps(AfterAll(s, steps), vm)
  }

  lemma {:induction false} OrderlyIsExclusive(lines: map<Vm, Line>, s: State, vm: Vm)
    requires Orderly(lines, s)
    ensures !Overlaps(s, vm)
  {
    forall a, b | RunsIn(s.ops, a, vm) && RunsIn(s.ops, b, vm) ensures a == b {
      TurnHasCome(lines, s.ops, s.tails, a);
      TurnHasCome(lines, s.ops, s.tails, b);
    }
  }

  lemma {:induction false} ClosedKeeps(lines: map<Vm, Line>, s: State, id: Id) returns (lines': map<Vm, Line>)
    requires Orderly(lines, s) && id in s.ops
    requires s.ops[id].stage == Running || (s.ops[id].stage == Waiting && Ready(s.ops, id))
    ensures Orderly(lines', Closed(s, id))
  {
    TurnHasCome(lines, s.ops, s.tails, id);
    var vm := s.ops[id].vm;
    var line := lines[vm];
    FinishStep(lines, s.ops, s.tails, id, vm, line, Closed(s, id).tails);
    lines' := lines[vm := Line(line.order, line.cut + 1)];
  }

  /** Every step in which no operation gives up before its turn keeps all VMs in turn. */
  lemma {:induction false} StepKeeps(lines: map<Vm, Line>, s: State, step: Step) returns (lines': map<Vm, Line>)
    requires Orderly(lines, s) && InTime(s, step)
    ensures Orderly(lines', After(s, step))
  {
    lines' := lines;
    match step
    case Starts(vm) =>
      var line := if vm in lines then lines[vm] else Line([], 0);
      StartStep(lines, s.ops, s.tails, vm, s.next, line);
      lines' := lines[vm := Line(line.order + [s.next], line.cut)];
    case Begins(id) =>
      if id in s.ops && s.ops[id].stage == Waiting && Ready(s.ops, id) {
        TurnHasCome(lines, s.ops, s.tails, id);
        RunStep(lines, s.ops, s.tails, id);
      }
    case Finishes(id) => if id in s.ops && s.ops[id].stage == Running { lines' := ClosedKeeps(lines, s, id); }
    case GivesUp(id) => if id in s.ops && s.ops[id].stage == Waiting { lines' := ClosedKeeps(lines, s, id); }
  }

  /** So over every such run operations of a VM run one at a time. */
  lemma {:induction false} RunsApart(lines: map<Vm, Line>, s: State, steps: seq<Step>, vm: Vm)
    requires Orderly(lines, s) && AllInTime(s, steps)
    ensures !Overlaps(AfterAll(s, steps), vm)
    decreases steps
  {
    if steps == [] {
      OrderlyIsExclusive(lines, s, vm);
    } else {
      var lines' := StepKeeps(lines, s, steps[0]);
      RunsApart(lines', After(s, steps[0]), steps[1..], vm);
    }
  }

  /** An operation that starts once the tail is gone waits for nobody. */
  lemma {:induction false} NewcomerIsReady(s: State, vm: Vm)
    requires vm !in s.tails
    ensures var s' := After(s, Starts(vm));
            s'.ops == s.ops[s.next := Op(vm, None, Waiting)] && Ready(s'.ops, s.next)
  {}

  /** Two operations that may run do run, after beginning both. */
  lemma {:induction false} BeginBoth(s: State, vm: Vm, a: Id, b: Id)
    requires a != b && a in s.ops && b in s.ops && s.ops[a].vm == vm && s.ops[b].vm == vm
    requires s.ops[a].stage == Running || (s.ops[a].stage == Waiting && Ready(s.ops, a))
    requires s.ops[b].stage == Waiting && Ready(s.ops, b)
    ensures Overlaps(AfterAll(s, [Begins(a), Begins(b)]), vm) && AllInTime(s, [Begins(a), Begins(b)])
  {
    var s1 := After(s, Begins(a));
    var s2 := After(s1, Begins(b));
    assert Ready(s1.ops, b);
    assert RunsIn(s2.ops, a, vm) && RunsIn(s2.ops, b, vm);
    var steps := [Begins(a), Begins(b)];
    assert steps[1..] == [Begins(b)] && [Begins(b)][1..] == [];
    assert AfterAll(s1, [Begins(b)]) == AfterAll(s2, []);
  }

  /** The first of a VM that has not finished runs or may run, and giving up behind it does not matter to it. */
  lemma {:induction false} FirstMayRun(lines: map<Vm, Line>, s: State, id: Id) returns (first: Id, k: nat)
    requires Orderly(lines, s) && id in s.ops && s.ops[id].stage == Waiting && !Ready(s.ops, id)
    ensures s.ops[id].vm in lines && k < |lines[s.ops[id].vm].order| && lines[s.ops[id].vm].order[k] == id
    ensures lines[s.ops[id].vm].cut < k && first != id && first in s.ops && s.ops[first].vm == s.ops[id].vm
    ensures s.ops[first].stage == Running || (s.ops[first].stage == Waiting && Ready(GiveUp(s.ops, id), first))
    ensures first == lines[s.ops[id].vm].order[lines[s.ops[id].vm].cut]
  {
    var vm := s.ops[id].vm;
    var order, cut := lines[vm].order, lines[vm].cut;
    assert LineOk(vm, lines[vm], s.ops, TailOf(s.tails, vm));
    k :| 0 <= k < |order| && order[k] == id;
    assert InTurnAt(order, cut, s.ops, k);
    ReadyIsFirst(order, cut, s.ops, k);
    assert InTurnAt(order, cut, s.ops, cut);
    ReadyIsFirst(order, cut, s.ops, cut);
    first := order[cut];
  }

  /** The operation behind the one that gave up, or a newcomer if there is none, may run. */
  lemma {:induction false} BehindMayRun(lines: map<Vm, Line>, s: State, id: Id, k: nat)
    requires Orderly(lines, s) && id in s.ops && s.ops[id].stage == Waiting && s.ops[id].vm in lines
    requires k < |lines[s.ops[id].vm].order| && lines[s.ops[id].vm].order[k] == id && lines[s.ops[id].vm].cut < k
    ensures var vm, order, s' := s.ops[id].vm, lines[s.ops[id].vm].order, After(s, GivesUp(id));
            if k + 1 < |order| then
              && order[k + 1] in s.ops && order[k + 1] != id && order[k + 1] != order[lines[vm].cut]
              && s.ops[order[k + 1]] == Op(vm, Some(id), Waiting)
            else vm !in s'.tails
  {
    var vm := s.ops[id].vm;
    var order, cut := lines[vm].order, lines[vm].cut;
    assert LineOk(vm, lines[vm], s.ops, TailOf(s.tails, vm));
    if k + 1 < |order| {
      assert InTurnAt(order, cut, s.ops, k + 1);
      assert order[k + 1] in s.ops && s.ops[order[k + 1]].vm == vm;
    }
  }

  /** Giving up before the turn, then at most three steps, and two operations of the VM run. */
  lemma {:induction false} BeforeTurn(lines: map<Vm, Line>, s: State, id: Id) returns (steps: seq<Step>)
    requires Orderly(lines, s) && id in s.ops && s.ops[id].stage == Waiting && !Ready(s.ops, id)
    ensures var s' := After(s, GivesUp(id));
            && |steps| <= 3 && AllInTime(s', steps) && (forall step :: step in steps ==> step.Starts? || step.Begins?)
            && Overlaps(AfterAll(s', steps), s.ops[id].vm)
  {
    var vm, s' := s.ops[id].vm, After(s, GivesUp(id));
    var first, k := FirstMayRun(lines, s, id);
    BehindMayRun(lines, s, id, k);
    var order := lines[vm].order;
    if k + 1 < |order| {
      BeginBoth(s', vm, first, order[k + 1]);
      steps := [Begins(first), Begins(order[k + 1])];
    } else {
      NewcomerIsReady(s', vm);
      BeginBoth(After(s', Starts(vm)), vm, first, s'.next);
      steps := [Starts(vm), Begins(first), Begins(s'.next)];
      assert steps[1..] == [Begins(first), Begins(s'.next)];
    }
  }

  /**
    Giving up is safe exactly when the operation's turn had come: otherwise at most three steps lead to two
    operations of the VM running at once.
   */
  lemma {:induction false} GiveUpIsSafe(lines: map<Vm, Line>, s: State, id: Id)
    requires Orderly(lines, s) && id in s.ops && s.ops[id].stage == Waiting
    ensures var s', vm := After(s, GivesUp(id)), s.ops[id].vm;
            && (Ready(s.ops, id) <==> forall steps :: !Collides(s', vm, steps))
            && (Ready(s.ops, id) <==> forall steps :: |steps| <= 3 ==> !Collides(s', vm, steps))
  {
    var s', vm := After(s, GivesUp(id)), s.ops[id].vm;
    if Ready(s.ops, id) {
      var lines' := StepKeeps(lines, s, GivesUp(id));
      forall steps ensures !Collides(s', vm, steps) {
        if AllInTime(s', steps) { RunsApart(lines', s', steps, vm); }
      }
    } else {
      var steps := BeforeTurn(lines, s, id);
      assert |steps| <= 3 && Collides(s', vm, steps);
    }
  }

  class Registry {
    var tails: map<Vm, Id>
    var ops: Ops
    var next: Id
    ghost var lines: map<Vm, Line>

    constructor ()
      ensures Valid() && View() == State(map[], map[], 0)
    {
      tails, ops, next, lines := map[], map[], 0, map[];
    }

    function View(): State
      reads this
    {
      State(tails, ops, next)
    }

    ghost predicate Valid()
      reads this
    {
      Orderly(lines, View())
    }

    /** startWithCleanup, up to the release of the lock. */
    method Start(vm: Vm) returns (id: Id)
      modifies this
      ensures id == old(next) && View() == After(old(View()), Starts(vm))
      ensures old(Valid()) ==> Valid() && id !in old(ops)
    {
      id := next;
      ghost var lines' := lines;
      if Valid() { lines' := StepKeeps(lines, View(), Starts(vm)); }
      ops, tails, next, lines := ops[id := Op(vm, TailOf(tails, vm), Waiting)], tails[vm := id], next + 1, lines';
    }

    /** The wait is over when the channel before is closed. */
    method Begin(id: Id) returns (ok: bool)
      requires id in ops && ops[id].stage == Waiting
      modifies this
      ensures (ok <==> Ready(old(ops), id)) && View() == After(old(View()), Begins(id))
      ensures old(Valid()) ==> Valid()
    {
      ok := Ready(ops, id);
      if ok {
        ghost var lines' := lines;
        if Valid() { lines' := StepKeeps(lines, View(), Begins(id)); }
        ops, lines := ops[id := ops[id].(stage := Running)], lines';
      }
    }

    /** The deferred section of an operation that has run, or that gives up; the latter may come before its turn. */
    method Finish(id: Id)
      requires id in ops && ops[id].stage != Finished
      modifies this
      ensures View() == Closed(old(View()), id)
      ensures old(Valid()) && (old(ops)[id].stage == Waiting ==> Ready(old(ops), id)) ==> Valid()
    {
      ghost var lines' := lines;
      if Valid() && (ops[id].stage == Waiting ==> Ready(ops, id)) {
        lines' := ClosedKeeps(lines, View(), id);
      }
      var vm := ops[id].vm;
      if TailOf(tails, vm) == Some(id) {
        tails := tails - {vm};
      }
      ops, lines := ops[id := ops[id].(stage := Finished)], lines';
    }

    /**
      In every reachable state: while an operation of a VM runs, all started before it have finished and
      all started after it wait; the VM's tail is there exactly while one is outstanding, and is the latest.
     */
    lemma {:induction false} OneAtATime(vm: Vm, i: nat, j: nat)
      requires Valid() && vm in lines && i < |lines[vm].order| && j < |lines[vm].order|
      ensures lines[vm].order[i] in ops && lines[vm].order[j] in ops
      ensures ops[lines[vm].order[i]].stage == Running && j < i ==> ops[lines[vm].order[j]].stage == Finished
      ensures ops[lines[vm].order[i]].stage == Running && j > i ==> ops[lines[vm].order[j]].stage == Waiting
      ensures vm in tails <==> lines[vm].cut < |lines[vm].order|
      ensures i >= lines[vm].cut <==> ops[lines[vm].order[i]].stage != Finished
      ensures vm in tails ==> tails[vm] == lines[vm].order[|lines[vm].order| - 1]
    {
      var line := lines[vm];
      assert LineOk(vm, line, ops, TailOf(tails, vm));
      assert InTurnAt(line.order, line.cut, ops, i) && InTurnAt(line.order, line.cut, ops, j);
    }

    /** Any one step, if it can be taken. */
    method Take(step: Step)
      modifies this
      ensures View() == After(old(View()), step)
      ensures old(Valid() && InTime(View(), step)) ==> Valid()
    {
      match step
      case Starts(vm) => var id := Start(vm);
      case Begins(id) => if id in ops && ops[id].stage == Waiting { var ok := Begin(id); }
      case Finishes(id) => if id in ops && ops[id].stage == Running { Finish(id); }
      case GivesUp(id) => if id in ops && ops[id].stage == Waiting { Finish(id); }
    }

    /** Any interleaving is the fold of its steps, and keeps the invariant if nobody gives up before its turn. */
    method Run(steps: seq<Step>)
      modifies this
      ensures View() == AfterAll(old(View()), steps)
      ensures old(Valid() && AllInTime(View(), steps)) ==> Valid()
    {
      ghost var s0, ok := View(), Valid() && AllInTime(View(), steps);
      for n := 0 to |steps|
        invariant AfterAll(s0, steps) == AfterAll(View(), steps[n..])
        invariant ok ==> Valid() && AllInTime(View(), steps[n..])
      {
        assert steps[n..][0] == steps[n] && steps[n..][1..] == steps[n + 1..];
        Take(steps[n]);
      }
    }
  }
}
