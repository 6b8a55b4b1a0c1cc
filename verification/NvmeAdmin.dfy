/**
  What a batch of admin commands leaves behind, said of the commands by their positions, and what a driver gets
  that makes a pair of queues and rings the new doorbell.
 */
module NvmeAdmin {
  import opened Bytes
  import opened Common
  import opened NvmeQueues
  import opened NvmeRing

  // ----- the commands of a doorbell -----

  /** The submissions from `head` up to `tail`, in order. */
  function Submitted(sq: seq<Command>, head: nat, tail: nat): seq<Command>
    requires head < |sq| && tail < |sq|
    decreases Distance(head, tail, |sq|)
  {
    if head == tail then [] else [sq[head]] + Submitted(sq, Step(head, |sq|), tail)
  }

  lemma {:induction false} SubmittedCount(sq: seq<Command>, head: nat, tail: nat)
    requires head < |sq| && tail < |sq|
    ensures |Submitted(sq, head, tail)| == if head <= tail then tail - head else |sq| - head + tail
    decreases Distance(head, tail, |sq|)
  {
    if head != tail { SubmittedCount(sq, Step(head, |sq|), tail); }
  }

  /** They lie in the ring one behind the other, the first slot following the last. */
  lemma {:induction false} SubmittedAt(sq: seq<Command>, head: nat, tail: nat, k: nat)
    requires head < |sq| && tail < |sq| && k < if head <= tail then tail - head else |sq| - head + tail
    ensures k < |Submitted(sq, head, tail)|
    ensures Submitted(sq, head, tail)[k] == sq[if head + k < |sq| then head + k else head + k - |sq|]
    decreases Distance(head, tail, |sq|)
  {
    SubmittedCount(sq, head, tail);
    if k > 0 { SubmittedAt(sq, Step(head, |sq|), tail, k - 1); }
  }

  /** An asynchronous event request on the admin queue, which is not answered. */
  predicate IsEvent(cmd: Command, id: u16) { id == 0 && cmd.opcode == 12 }

  /** How many of the first `k` commands are answered. */
  function AnsweredOf(cmds: seq<Command>, id: u16, k: nat): nat
    requires k <= |cmds|
  {
    if k == 0 then 0 else (if IsEvent(cmds[0], id) then 0 else 1) + AnsweredOf(cmds[1..], id, k - 1)
  }

  lemma {:induction false} FirstSubmitted(sq: seq<Command>, head: nat, tail: nat)
    requires head < |sq| && tail < |sq| && head != tail
    ensures var cmds := Submitted(sq, head, tail);
            cmds != [] && cmds[0] == sq[head] && cmds[1..] == Submitted(sq, Step(head, |sq|), tail)
  {}

  /** Completions are owed for all commands that are answered, unless one of them cannot be carried out. */
  lemma {:induction false} OwedCount(sq: seq<Command>, id: u16, head: nat, tail: nat, run: Command -> Option<Answer>)
    requires head < |sq| < TWO16 && tail < |sq|
    ensures var owed, cmds := Owed(sq, id, head, tail, run), Submitted(sq, head, tail);
            && (owed.Some? <==> forall cmd :: cmd in cmds && !IsEvent(cmd, id) ==> run(cmd).Some?)
            && (owed.Some? ==> |owed.value| == AnsweredOf(cmds, id, |cmds|))
    decreases Distance(head, tail, |sq|)
  {
    if head != tail {
      FirstSubmitted(sq, head, tail);
      OwedCount(sq, id, Step(head, |sq|), tail, run);
      var cmds := Submitted(sq, head, tail);
      assert forall cmd :: cmd in cmds <==> cmd == sq[head] || cmd in cmds[1..];
    }
  }

  /** The completion for a command: its number and its queue, the head behind it, and what running it gave. */
  predicate Completes(c: Completion, cmd: Command, id: u16, next: nat, run: Command -> Option<Answer>) {
    && run(cmd).Some? && c.result == run(cmd).value.result && c.status == run(cmd).value.status
    && c.cid == cmd.cid && c.sqId == id && c.sqHead == next
  }

  lemma {:induction false} OwedFirst(sq: seq<Command>, id: u16, head: nat, tail: nat, run: Command -> Option<Answer>)
    requires head < |sq| < TWO16 && tail < |sq| && head != tail && Owed(sq, id, head, tail, run).Some?
    ensures var owed, rest := Owed(sq, id, head, tail, run), Owed(sq, id, Step(head, |sq|), tail, run);
            && rest.Some?
            && if IsEvent(sq[head], id) then owed == rest
               else
                 && owed.value != [] && Completes(owed.value[0], sq[head], id, Step(head, |sq|), run)
                 && owed.value[1..] == rest.value
  {
    var rest := Owed(sq, id, Step(head, |sq|), tail, run);
    assert rest.Some? ==> [] + rest.value == rest.value;
  }

  /** Each command that is answered has its completion, in order; the head goes round the ring. */
  lemma {:induction false} OwedAt(sq: seq<Command>, id: u16, head: nat, tail: nat, run: Command -> Option<Answer>,
                                  owed: seq<Completion>, cmds: seq<Command>, k: nat)
    requires head < |sq| < TWO16 && tail < |sq| && Owed(sq, id, head, tail, run) == Some(owed)
    requires cmds == Submitted(sq, head, tail) && k < |cmds| && !IsEvent(cmds[k], id)
    ensures AnsweredOf(cmds, id, k) < |owed|
    ensures Completes(owed[AnsweredOf(cmds, id, k)], cmds[k], id,
                      if head + k + 1 < |sq| then head + k + 1 else head + k + 1 - |sq|, run)
    decreases Distance(head, tail, |sq|)
  {
    FirstSubmitted(sq, head, tail);
    SubmittedCount(sq, head, tail);
    OwedFirst(sq, id, head, tail, run);
    if k > 0 {
      var next, rest := Step(head, |sq|), cmds[1..];
      var owed' := if IsEvent(cmds[0], id) then owed else owed[1..];
      OwedAt(sq, id, next, tail, run, owed', rest, k - 1);
      assert owed'[AnsweredOf(rest, id, k - 1)] == owed[AnsweredOf(cmds, id, k)];
    }
  }

  /** The queues after a list of admin commands. */
  function ChangedBy(states: map<u16, QueueState>, cmds: seq<Command>, memory: Memory): map<u16, QueueState>
    requires memory.Valid()
    decreases cmds
  {
    if cmds == [] then states else ChangedBy(StatesAfter(states, cmds[0], memory), cmds[1..], memory)
  }

  lemma {:induction false} DoorbellChanges(states: map<u16, QueueState>, sq: seq<Command>, head: nat, tail: nat,
                                           memory: Memory)
    requires head < |sq| && tail < |sq| && memory.Valid()
    ensures StatesAfterAll(states, sq, head, tail, memory) == ChangedBy(states, Submitted(sq, head, tail), memory)
    decreases Distance(head, tail, |sq|)
  {
    if head != tail {
      var rest := Submitted(sq, Step(head, |sq|), tail);
      assert ([sq[head]] + rest)[1..] == rest;
      DoorbellChanges(StatesAfter(states, sq[head], memory), sq, Step(head, |sq|), tail, memory);
    }
  }

  lemma {:induction false} ChangedByBoth(states: map<u16, QueueState>, a: seq<Command>, b: seq<Command>, memory: Memory)
    requires memory.Valid()
    ensures ChangedBy(states, a + b, memory) == ChangedBy(ChangedBy(states, a, memory), b, memory)
    decreases a
  {
    if a == [] {
      assert a + b == b;
    } else {
      assert (a + b)[1..] == a[1..] + b;
      ChangedByBoth(StatesAfter(states, a[0], memory), a[1..], b, memory);
    }
  }

  /** Up to a command, that command, and the commands behind it. */
  lemma {:induction false} ChangedAround(states: map<u16, QueueState>, cmds: seq<Command>, k: nat, memory: Memory)
    requires memory.Valid() && k < |cmds|
    ensures var before := ChangedBy(states, cmds[..k], memory);
            ChangedBy(states, cmds, memory) == ChangedBy(StatesAfter(before, cmds[k], memory), cmds[k + 1..], memory)
  {
    assert cmds == cmds[..k] + cmds[k..] && cmds[k..][1..] == cmds[k + 1..];
    ChangedByBoth(states, cmds[..k], cmds[k..], memory);
  }

  // ----- what becomes of one queue -----

  /** The command makes or deletes that queue. */
  predicate Touches(cmd: Command, id: u16) { cmd.qid == id && cmd.opcode in {0, 1, 4, 5} }

  ghost predicate Untouched(cmds: seq<Command>, id: u16) {
    forall j {:trigger cmds[j]} :: 0 <= j < |cmds| ==> !Touches(cmds[j], id)
  }

  lemma {:induction false} UntouchedStays(states: map<u16, QueueState>, cmds: seq<Command>, id: u16, memory: Memory)
    requires memory.Valid() && Untouched(cmds, id)
    ensures var r := ChangedBy(states, cmds, memory); (id in r <==> id in states) && (id in r ==> r[id] == states[id])
    decreases cmds
  {
    if cmds != [] {
      assert !Touches(cmds[0], id);
      UntouchedStays(StatesAfter(states, cmds[0], memory), cmds[1..], id, memory);
    }
  }

  /** The last command for a queue decides: its size and the ring that the command is about, or that it is gone. */
  lemma {:induction false} LastCommandDecides(states: map<u16, QueueState>, cmds: seq<Command>, k: nat, memory: Memory)
    requires memory.Valid() && k < |cmds| && Touches(cmds[k], cmds[k].qid) && Untouched(cmds[k + 1..], cmds[k].qid)
    ensures var r, cmd := ChangedBy(states, cmds, memory), cmds[k];
            && (cmd.qid in r <==> cmd.opcode == 1 || cmd.opcode == 5)
            && (cmd.qid in r ==> r[cmd.qid].size == r[cmd.qid].completions.size == (cmd.field + 1) % 65536)
            && (cmd.opcode == 1 ==>
                  r[cmd.qid].sqAddr == cmd.addr && r[cmd.qid].cqId == cmd.cqId &&
                  r[cmd.qid].sqMem == memory.commands(cmd.addr, r[cmd.qid].size))
            && (cmd.opcode == 5 ==>
                  r[cmd.qid].cqAddr == cmd.addr && r[cmd.qid].interrupts == cmd.ien && r[cmd.qid].completions.phase &&
                  r[cmd.qid].completions.slots == memory.entries(cmd.addr, r[cmd.qid].size))
  {
    ChangedAround(states, cmds, k, memory);
    var before := ChangedBy(states, cmds[..k], memory);
    UntouchedStays(StatesAfter(before, cmds[k], memory), cmds[k + 1..], cmds[k].qid, memory);
  }

  /** No command deletes that queue, or makes its side `opcode` anew. */
  ghost predicate LeavesSide(cmds: seq<Command>, id: u16, opcode: byte) {
    forall j {:trigger cmds[j]} :: 0 <= j < |cmds| && cmds[j].qid == id ==>
      cmds[j].opcode != 0 && cmds[j].opcode != 4 && cmds[j].opcode != opcode
  }

  lemma {:induction false} SideStays(states: map<u16, QueueState>, cmds: seq<Command>, id: u16, memory: Memory)
    requires memory.Valid() && id in states
    ensures var r := ChangedBy(states, cmds, memory);
            && (LeavesSide(cmds, id, 1) ==>
                  id in r && r[id].sqAddr == states[id].sqAddr && r[id].cqId == states[id].cqId)
            && (LeavesSide(cmds, id, 5) ==>
                  id in r && r[id].cqAddr == states[id].cqAddr && r[id].interrupts == states[id].interrupts &&
                  r[id].completions.phase == states[id].completions.phase)
    decreases cmds
  {
    if cmds != [] {
      var next := StatesAfter(states, cmds[0], memory);
      if id in next {
        SideStays(next, cmds[1..], id, memory);
      } else {
        assert cmds[0].qid == id;
      }
    }
  }

  /** The last creation of a submission queue, even with one of the completion queue of its number behind it. */
  lemma {:induction false} LastSubmissionSide(states: map<u16, QueueState>, cmds: seq<Command>, k: nat, memory: Memory)
    requires memory.Valid() && k < |cmds| && cmds[k].opcode == 1 && LeavesSide(cmds[k + 1..], cmds[k].qid, 1)
    ensures var r, cmd := ChangedBy(states, cmds, memory), cmds[k];
            cmd.qid in r && r[cmd.qid].sqAddr == cmd.addr && r[cmd.qid].cqId == cmd.cqId
  {
    ChangedAround(states, cmds, k, memory);
    SideStays(StatesAfter(ChangedBy(states, cmds[..k], memory), cmds[k], memory), cmds[k + 1..], cmds[k].qid, memory);
  }

  /** The same for a completion queue. */
  lemma {:induction false} LastCompletionSide(states: map<u16, QueueState>, cmds: seq<Command>, k: nat, memory: Memory)
    requires memory.Valid() && k < |cmds| && cmds[k].opcode == 5 && LeavesSide(cmds[k + 1..], cmds[k].qid, 5)
    ensures var r, cmd := ChangedBy(states, cmds, memory), cmds[k];
            && cmd.qid in r && r[cmd.qid].cqAddr == cmd.addr && r[cmd.qid].interrupts == cmd.ien
            && r[cmd.qid].completions.phase
  {
    ChangedAround(states, cmds, k, memory);
    SideStays(StatesAfter(ChangedBy(states, cmds[..k], memory), cmds[k], memory), cmds[k + 1..], cmds[k].qid, memory);
  }

  // ----- a new pair of queues -----

  /**
    Among the commands, `i` makes a new completion queue and `k` a new submission queue that answers in it,
    both of the same size, and no other command is about them.
   */
  ghost predicate MakesPair(cmds: seq<Command>, i: nat, k: nat, ids: set<u16>) {
    && i < k < |cmds| && cmds[i].opcode == 5 && cmds[k].opcode == 1 && cmds[k].cqId == cmds[i].qid
    && cmds[i].field == cmds[k].field < 65535 && cmds[i].qid !in ids && cmds[k].qid !in ids
    && forall j {:trigger cmds[j]} :: 0 <= j < |cmds| && j != i && j != k ==>
         !Touches(cmds[j], cmds[i].qid) && !Touches(cmds[j], cmds[k].qid)
  }

  lemma {:induction false} NewCompletionQueue(states: map<u16, QueueState>, cmd: Command, memory: Memory)
    requires memory.Valid() && cmd.opcode == 5 && cmd.field < 65535 && cmd.qid !in states
    ensures var r, n := StatesAfter(states, cmd, memory), cmd.field + 1;
            && cmd.qid in r && r[cmd.qid].sqHead == 0 && r[cmd.qid].size == n
            && r[cmd.qid].completions == Fresh(n, memory.entries(cmd.addr, n))
  {}

  lemma {:induction false} NewSubmissionQueue(states: map<u16, QueueState>, cmd: Command, memory: Memory, n: u16)
    requires memory.Valid() && cmd.opcode == 1 && cmd.field + 1 == n
    requires cmd.qid in states ==> states[cmd.qid].sqHead == 0 && |states[cmd.qid].completions.slots| == n
    ensures var r := StatesAfter(states, cmd, memory);
            && cmd.qid in r && r[cmd.qid].sqHead == 0 && r[cmd.qid].size == n && r[cmd.qid].cqId == cmd.cqId
            && r[cmd.qid].sqMem == memory.commands(cmd.addr, n)
            && (cmd.qid in states && states[cmd.qid].completions.size == n ==>
                  r[cmd.qid].completions == states[cmd.qid].completions)
  {
    if cmd.qid in states {
      var slots := states[cmd.qid].completions.slots;
      assert slots[..n] == slots;
    }
  }

  lemma {:induction false} PairMade(states: map<u16, QueueState>, cmds: seq<Command>, i: nat, k: nat, memory: Memory)
    requires memory.Valid() && MakesPair(cmds, i, k, states.Keys)
    ensures var r, n, s, c := ChangedBy(states, cmds, memory), cmds[k].field + 1, cmds[k].qid, cmds[i].qid;
            && s in r && r[s].size == n && r[s].cqId == c && r[s].sqHead == 0
            && r[s].sqMem == memory.commands(cmds[k].addr, n)
            && c in r && r[c].completions == Fresh(n, memory.entries(cmds[i].addr, n))
  {
    var n, s, c := cmds[k].field + 1, cmds[k].qid, cmds[i].qid;
    var upto := cmds[..k];
    var first := ChangedBy(states, upto[..i], memory);
    var made := StatesAfter(first, cmds[i], memory);
    var before := ChangedBy(states, upto, memory);
    UntouchedStays(states, upto[..i], c, memory);
    UntouchedStays(states, upto[..i], s, memory);
    NewCompletionQueue(first, cmds[i], memory);
    ChangedAround(states, upto, i, memory);
    UntouchedStays(made, upto[i + 1..], c, memory);
    UntouchedStays(made, upto[i + 1..], s, memory);
    NewSubmissionQueue(before, cmds[k], memory, n);
    ChangedAround(states, cmds, k, memory);
    UntouchedStays(StatesAfter(before, cmds[k], memory), cmds[k + 1..], c, memory);
    UntouchedStays(StatesAfter(before, cmds[k], memory), cmds[k + 1..], s, memory);
  }

  /** The queue answers in queue `c`, and both are as new. */
  ghost predicate NewPair(ctrl: Controller, s: u16, c: u16, n: nat, entries: seq<Entry>)
    reads ctrl, ctrl.queues.Values
  {
    && s in ctrl.queues && c in ctrl.queues && ctrl.Filed() && s != ADMIN
    && ctrl.queues[s].size == n && ctrl.queues[s].sqHead == 0 && ctrl.queues[s].cqId == c
    && ctrl.queues[c].Completions() == Fresh(n, entries)
  }

  lemma {:induction false} PairIsThere(ctrl: Controller, s: u16, c: u16, n: nat, entries: seq<Entry>)
    requires ctrl.Filed() && s in ctrl.States() && c in ctrl.States()
    requires var states := ctrl.States();
             && states[s].size == n && states[s].sqHead == 0 && states[s].cqId == c
             && states[c].completions == Fresh(n, entries)
    ensures NewPair(ctrl, s, c, n, entries)
  {}

  /** A driver makes a pair of queues with one admin doorbell. */
  method MakePair(ctrl: Controller, adminTail: u16, ghost cmds: seq<Command>, ghost i: nat, ghost k: nat,
                  run: Command -> Option<Answer>, memory: Memory)
    returns (ok: bool)
    requires ADMIN in ctrl.queues && ctrl.Serves(ctrl.queues[ADMIN], memory) && adminTail < ctrl.queues[ADMIN].size
    requires var q := ctrl.queues[ADMIN];
             cmds == Submitted(q.sqMem, q.sqHead, adminTail) && KeepsAdmin(q.sqMem, q.sqHead, adminTail)
    requires MakesPair(cmds, i, k, ctrl.queues.Keys)
    modifies ctrl`irqHigh, ctrl`queues, ctrl.queues.Values
    ensures forall id :: id in ctrl.queues ==> ctrl.queues[id] in old(ctrl.queues.Values) || fresh(ctrl.queues[id])
    ensures ok ==>
              var n := cmds[k].field + 1;
              NewPair(ctrl, cmds[k].qid, cmds[i].qid, n, memory.entries(cmds[i].addr, n))
  {
    ghost var q, states, n := ctrl.queues[ADMIN], ctrl.States(), cmds[k].field + 1;
    DoorbellChanges(states, q.sqMem, q.sqHead, adminTail, memory);
    PairMade(states, cmds, i, k, memory);
    ok := ctrl.WriteDoorbell(0, adminTail, run, memory);
    if ok { PairIsThere(ctrl, cmds[k].qid, cmds[i].qid, n, memory.entries(cmds[i].addr, n)); }
  }

  /** The commands that it then puts into the new submission ring are answered in the ring of the new pair. */
  method RingNewQueue(ctrl: Controller, s: u16, ghost c: u16, ring: seq<Command>, value: u16, ghost entries: seq<Entry>,
                      run: Command -> Option<Answer>, memory: Memory)
    returns (ok: bool)
    requires NewPair(ctrl, s, c, |ring|, entries) && value < |ring| == |entries| && memory.Valid()
    modifies ctrl`irqHigh, ctrl`queues, ctrl.queues.Values
    ensures ok ==>
              var owed := Owed(ring, s, 0, value, run);
              && owed.Some? && c in ctrl.queues
              && ctrl.queues[c].Completions() == PostAll(Fresh(|ring|, entries), owed.value)
  {
    var io := ctrl.queues[s];
    io.sqMem := ring;
    ok := ctrl.WriteDoorbell(8 * s, value, run, memory);
  }

  /**
    The whole way: the completions of what was put into the new submission ring are in the ring of the completion
    queue that its creation named.
   */
  method RingNewPair(ctrl: Controller, adminTail: u16, ghost cmds: seq<Command>, ghost i: nat, ghost k: nat,
                     s: u16, ring: seq<Command>, value: u16, runAdmin: Command -> Option<Answer>,
                     runIo: Command -> Option<Answer>, memory: Memory)
    returns (ok: bool)
    requires ADMIN in ctrl.queues && ctrl.Serves(ctrl.queues[ADMIN], memory) && adminTail < ctrl.queues[ADMIN].size
    requires var q := ctrl.queues[ADMIN];
             cmds == Submitted(q.sqMem, q.sqHead, adminTail) && KeepsAdmin(q.sqMem, q.sqHead, adminTail)
    requires MakesPair(cmds, i, k, ctrl.queues.Keys) && s == cmds[k].qid
    requires |ring| == cmds[k].field + 1 && value < |ring|
    modifies ctrl`irqHigh, ctrl`queues, ctrl.queues.Values
    ensures ok ==>
              var n, c := cmds[k].field + 1, cmds[k].cqId;
              var owed := Owed(ring, s, 0, value, runIo);
              && owed.Some? && c in ctrl.queues
              && ctrl.queues[c].Completions() == PostAll(Fresh(n, memory.entries(cmds[i].addr, n)), owed.value)
  {
    ok := MakePair(ctrl, adminTail, cmds, i, k, runAdmin, memory);
    if ok {
      ghost var entries := memory.entries(cmds[i].addr, |ring|);
      ok := RingNewQueue(ctrl, s, cmds[k].cqId, ring, value, entries, runIo, memory);
    }
  }
}
