/** The completion ring of an NVMe queue: phase tags, pending count, doorbells and the interrupt line. */
module NvmeRing {
  import opened Bytes
  import opened Common

  datatype Completion = Completion(result: u32, sqHead: u16, sqId: u16, cid: u16, status: u16)
  datatype Entry = Entry(body: Completion, phase: bool)

  /** The completion side of a queue and the ring in guest memory. */
  datatype Ring = Ring(size: nat, head: nat, tail: nat, pending: nat, phase: bool, slots: seq<Entry>) {
    predicate Shaped() { 0 < size < TWO16 && |slots| == size && head < size && tail < size && pending <= size }

    function Next(): nat { if tail + 1 == size then 0 else tail + 1 }

    /** writeCompletionLocked */
    function Post(c: Completion): Ring
      requires Shaped()
    {
      Ring(size, head, Next(), if pending < size then pending + 1 else pending, phase != (Next() == 0),
           slots[tail := Entry(c, phase)])
    }

    /** advanceCompletionHeadLocked, for a head inside the ring */
    function Advance(h: nat): Ring
      requires Shaped() && h < size
    {
      var consumed := if h < head then size - head + h else h - head;
      var left := if (consumed == 0 && pending == size) || consumed >= pending then 0 else pending - consumed;
      this.(head := h, pending := left)
    }
  }

  // ----- positions on the ring -----

  /** Where the k-th completion goes, counted lap by lap. */
  function Slot(k: nat, size: nat): nat {
    if k == 0 then 0 else if Slot(k - 1, size) + 1 == size then 0 else Slot(k - 1, size) + 1
  }

  function Lap(k: nat, size: nat): nat {
    if k == 0 then 0 else if Slot(k, size) == 0 then Lap(k - 1, size) + 1 else Lap(k - 1, size)
  }

  /** The phase tag alternates from lap to lap and starts set. */
  predicate Tag(k: nat, size: nat) {
    if k == 0 then true else Tag(k - 1, size) != (Slot(k, size) == 0)
  }

  lemma {:induction false} SlotInRing(k: nat, size: nat)
    requires size > 0
    ensures Slot(k, size) < size
  {
    if k > 0 { SlotInRing(k - 1, size); }
  }

  lemma {:induction false} SlotIsRemainderAux(k: nat, size: nat)
    requires size > 0
    ensures k == Lap(k, size) * size + Slot(k, size) && Slot(k, size) < size
    ensures Tag(k, size) <==> Lap(k, size) % 2 == 0
  {
    if k > 0 {
      SlotIsRemainderAux(k - 1, size);
      var l := Lap(k - 1, size);
      assert (l + 1) * size == l * size + size;
    }
  }

  /** Slot, lap and tag are the remainder, the quotient and the quotient's parity. */
  lemma {:induction false} SlotIsRemainder(k: nat, size: nat)
    requires size > 0
    ensures Slot(k, size) == k % size && Lap(k, size) == k / size
    ensures Tag(k, size) <==> (k / size) % 2 == 0
  {
    SlotIsRemainderAux(k, size);
    var s, l := Slot(k, size), Lap(k, size);
    DivUnique(k, size, l, s);
  }

  /** The slot `n` places further on. */
  lemma {:induction false} SlotAhead(k: nat, n: nat, size: nat)
    requires size > 0 && n <= size
    ensures Slot(k, size) < size
    ensures Slot(k + n, size) == if Slot(k, size) + n < size then Slot(k, size) + n else Slot(k, size) + n - size
  {
    SlotInRing(k, size);
    if n > 0 { SlotAhead(k, n - 1, size); }
  }

  // ----- the ring against its history -----

  /** The last lap of entries is what was posted, each in its slot with its tag. */
  predicate Holds(r: Ring, posted: seq<Completion>) {
    forall k {:trigger posted[k]} :: 0 <= k < |posted| <= k + r.size ==>
      Slot(k, r.size) < |r.slots| && r.slots[Slot(k, r.size)] == Entry(posted[k], Tag(k, r.size))
  }

  /** The ring's counters say what a history of posted and consumed completions says. */
  predicate InStep(r: Ring, posted: seq<Completion>, consumed: nat) {
    && r.Shaped() && consumed <= |posted|
    && r.head == Slot(consumed, r.size) && r.tail == Slot(|posted|, r.size) && r.phase == Tag(|posted|, r.size)
    && r.pending == |posted| - consumed
    && Holds(r, posted)
  }

  function Fresh(size: nat, slots: seq<Entry>): Ring {
    Ring(size, 0, 0, 0, true, slots)
  }

  lemma {:induction false} FreshInStep(size: nat, slots: seq<Entry>)
    requires 0 < size < TWO16 && |slots| == size
    ensures InStep(Fresh(size, slots), [], 0)
  {}

  /** Two completions of the same lap never share a slot. */
  lemma {:induction false} SlotsDiffer(k: nat, n: nat, size: nat)
    requires k < n < k + size
    ensures Slot(k, size) != Slot(n, size)
  {
    SlotAhead(k, n - k, size);
  }

  /** A completion keeps the ring in step exactly when there is room for it. */
  lemma {:induction false} PostInStep(r: Ring, posted: seq<Completion>, consumed: nat, c: Completion)
    requires InStep(r, posted, consumed)
    ensures InStep(r.Post(c), posted + [c], consumed) <==> r.pending < r.size
  {
    if r.pending < r.size {
      var p, n, r' := posted + [c], |posted|, r.Post(c);
      forall k | 0 <= k < |p| <= k + r.size
        ensures Slot(k, r.size) < |r'.slots| && r'.slots[Slot(k, r.size)] == Entry(p[k], Tag(k, r.size))
      {
        if k < n {
          SlotsDiffer(k, n, r.size);
          assert p[k] == posted[k];
        }
      }
    }
  }

  /**
    A driver that has taken `n` of the pending completions and writes its new head keeps the ring in
    step, except when it rewrites an unmoved head while the ring is full: that reads as taking all.
   */
  lemma {:induction false} AdvanceInStep(r: Ring, posted: seq<Completion>, consumed: nat, n: nat)
    requires InStep(r, posted, consumed) && n <= r.pending
    ensures Slot(consumed + n, r.size) < r.size
    ensures InStep(r.Advance(Slot(consumed + n, r.size)), posted, consumed + n) <==> !(n == 0 && r.pending == r.size)
  {
    SlotAhead(consumed, n, r.size);
    SlotInRing(consumed + n, r.size);
    assert Holds(r.Advance(Slot(consumed + n, r.size)), posted);
  }

  // ----- whole runs -----

  datatype Event = Posted(c: Completion) | Taken(n: nat)

  function History(es: seq<Event>): seq<Completion> {
    if es == [] then []
    else
      var e, before := es[|es| - 1], History(es[..|es| - 1]);
      if e.Posted? then before + [e.c] else before
  }

  function Consumed(es: seq<Event>): nat {
    if es == [] then 0
    else
      var e, before := es[|es| - 1], Consumed(es[..|es| - 1]);
      if e.Taken? then before + e.n else before
  }

  /**
    A run between a controller that never overruns the ring and a driver that takes only posted
    completions and does not rewrite an unmoved head while the ring is full.
   */
  predicate Lawful(es: seq<Event>, size: nat) {
    es == [] ||
    var e, before := es[|es| - 1], es[..|es| - 1];
    var pending := |History(before)| - Consumed(before);
    Lawful(before, size) && (if e.Posted? then pending < size else e.n <= pending && (pending < size || e.n > 0))
  }

  /** The controller's side of a run: it sees completions and the head values that the driver writes. */
  function After(r0: Ring, es: seq<Event>): Ring {
    if es == [] then r0
    else
      var e, before := es[|es| - 1], es[..|es| - 1];
      var r := After(r0, before);
      if !r.Shaped() then r
      else if e.Posted? then r.Post(e.c)
      else
        var h := Slot(Consumed(es), r.size);
        if h < r.size then r.Advance(h) else r
  }

  lemma {:induction false} LawfulRun(r0: Ring, es: seq<Event>)
    requires 0 < r0.size < TWO16 && |r0.slots| == r0.size && r0 == Fresh(r0.size, r0.slots)
    requires Lawful(es, r0.size)
    ensures After(r0, es).size == r0.size && InStep(After(r0, es), History(es), Consumed(es))
  {
    if es == [] {
      FreshInStep(r0.size, r0.slots);
    } else {
      var e, before := es[|es| - 1], es[..|es| - 1];
      LawfulRun(r0, before);
      var r := After(r0, before);
      if e.Posted? {
        PostInStep(r, History(before), Consumed(before), e.c);
      } else {
        AdvanceInStep(r, History(before), Consumed(before), e.n);
      }
    }
  }

  lemma {:induction false} TailFromHead(head: nat, pending: nat, size: nat)
    requires head < size && pending <= size
    ensures (head + pending) % size == if head + pending < size then head + pending else head + pending - size
  {
    if head + pending < size {
      DivUnique(head + pending, size, 0, head + pending);
    } else {
      DivUnique(head + pending, size, 1, head + pending - size);
    }
  }

  /** The same in the words of the standard: slot k mod size, phase by the parity of k / size. */
  lemma {:induction false} RunPositions(r0: Ring, es: seq<Event>)
    requires 0 < r0.size < TWO16 && |r0.slots| == r0.size && r0 == Fresh(r0.size, r0.slots)
    requires Lawful(es, r0.size)
    ensures var r, posted, size := After(r0, es), History(es), r0.size;
            && r.size == size && |r.slots| == size
            && r.pending == |posted| - Consumed(es) <= size
            && r.head == Consumed(es) % size && r.tail == |posted| % size && (r.head + r.pending) % size == r.tail
            && r.phase == ((|posted| / size) % 2 == 0)
            && forall k {:trigger posted[k]} :: 0 <= k < |posted| <= k + size ==>
                 r.slots[k % size] == Entry(posted[k], (k / size) % 2 == 0)
  {
    LawfulRun(r0, es);
    var r, posted, size := After(r0, es), History(es), r0.size;
    SlotIsRemainder(Consumed(es), size);
    SlotIsRemainder(|posted|, size);
    SlotAhead(Consumed(es), r.pending, size);
    TailFromHead(r.head, r.pending, size);
    forall k {:trigger posted[k]} | 0 <= k < |posted| <= k + size
      ensures r.slots[k % size] == Entry(posted[k], (k / size) % 2 == 0)
    {
      SlotIsRemainder(k, size);
    }
  }

  /** A full ring whose driver rewrites its head without taking anything loses all of its pending count. */
  lemma {:induction false} FullRingRewrite(c: Completion, e: Entry)
    ensures var r0 := Fresh(1, [e]);
            var es := [Posted(c), Taken(0)];
            !Lawful(es, 1) && |History(es)| - Consumed(es) == 1 && After(r0, es).pending == 0
  {
    var es := [Posted(c), Taken(0)];
    assert es[..1] == [Posted(c)];
    assert [Posted(c)][..0] == [];
    assert History([Posted(c)]) == [c];
    assert Consumed([Posted(c)]) == 0;
    assert After(Fresh(1, [e]), [Posted(c)]) == Fresh(1, [e]).Post(c);
  }
}

/** The controller's queues, its doorbells and its interrupt line. */
module NvmeQueues {
  import opened Bytes
  import opened Common
  import opened NvmeRing

  /**
    A submission entry, as far as queues are concerned: the halves of its tenth word, the upper half and
    the second bit of its eleventh, and its first PRP entry.
   */
  datatype Command = Command(opcode: byte, cid: u16, qid: u16, field: u16, cqId: u16, ien: bool, addr: u64)
  datatype Answer = Answer(result: u32, status: u16)

  /** What guest memory holds from an address on, read as that many entries of a ring. */
  datatype Memory = Memory(commands: (nat, nat) -> seq<Command>, entries: (nat, nat) -> seq<Entry>) {
    ghost predicate Valid() {
      && (forall a: nat, n: nat {:trigger commands(a, n)} :: |commands(a, n)| == n)
      && (forall a: nat, n: nat {:trigger entries(a, n)} :: |entries(a, n)| == n)
    }
  }

  const ADMIN: u16 := 0
  const DELETE_SQ: byte := 0
  const CREATE_SQ: byte := 1
  const DELETE_CQ: byte := 4
  const CREATE_CQ: byte := 5
  const ASYNC_EVENT: byte := 12

  predicate Creates(cmd: Command) { cmd.opcode == CREATE_SQ || cmd.opcode == CREATE_CQ }

  predicate Deletes(cmd: Command) { cmd.opcode == DELETE_SQ || cmd.opcode == DELETE_CQ }

  /** A command that would make the admin queue anew while its ring is worked on; the model leaves those out. */
  predicate RemakesAdmin(cmd: Command) { Creates(cmd) && cmd.qid == ADMIN }

  /** A 16-bit size field that counts from zero, so 65535 gives an empty queue. */
  function SizeOf(field: u16): u16 { if field + 1 == TWO16 then 0 else field + 1 }

  /** A ring that stays where it is and gets a new size: its first entries, or all of them and what lies behind. */
  function Recut<T>(ring: seq<T>, size: nat, behind: seq<T>): (r: seq<T>)
    requires |ring| + |behind| >= size
    ensures |r| == size
    ensures forall i :: 0 <= i < size ==> r[i] == if i < |ring| then ring[i] else behind[i - |ring|]
  {
    if size <= |ring| then ring[..size] else ring + behind[..size - |ring|]
  }

  const COMMAND_SIZE := 64
  const ENTRY_SIZE := 16

  /** cacheQueueMemoryLocked for a submission ring that stays at its address while the size changes. */
  function RecutCommands(ring: seq<Command>, size: nat, addr: nat, memory: Memory): seq<Command>
    requires memory.Valid()
  {
    if size == 0 || addr == 0 then ring
    else Recut(ring, size, memory.commands(addr + COMMAND_SIZE * |ring|, size))
  }

  /** The same for a completion ring. */
  function RecutEntries(ring: seq<Entry>, size: nat, addr: nat, memory: Memory): seq<Entry>
    requires memory.Valid()
  {
    if size == 0 || addr == 0 then ring
    else Recut(ring, size, memory.entries(addr + ENTRY_SIZE * |ring|, size))
  }

  lemma {:induction false} WrapOnce(x: nat, size: nat)
    requires x < size
    ensures (x + 1) % size == if x + 1 == size then 0 else x + 1
  {
    TailFromHead(x, 1, size);
  }

  /** a - b in 16 bits; `a` is a sum of two 16-bit numbers. */
  function Sub16(a: nat, b: u16): u16
    requires a < 2 * TWO16
  {
    if a < b then a - b + TWO16 else if a - b < TWO16 then a - b else a - b - TWO16
  }

  /** The fields of a queue as a value. */
  datatype QueueState = QueueState(size: u16, sqAddr: u64, cqAddr: u64, cqId: u16, sqHead: u16, sqTail: u16,
                                   interrupts: bool, sqMem: seq<Command>, completions: Ring)

  const NEW_QUEUE := QueueState(0, 0, 0, 0, 0, 0, false, [], Ring(0, 0, 0, 0, false, []))

  /** adminCreateCQ: a completion ring at the command's address, and the submission ring cut to the new size. */
  function WithCompletions(s: QueueState, size: u16, addr: u64, ien: bool, memory: Memory): QueueState
    requires memory.Valid()
  {
    s.(size := size, cqAddr := addr, interrupts := ien, sqMem := RecutCommands(s.sqMem, size, s.sqAddr, memory),
       completions := s.completions.(size := size, phase := true, slots := memory.entries(addr, size)))
  }

  /** adminCreateSQ: a submission ring at the command's address, and the completion ring cut to the new size. */
  function WithSubmissions(s: QueueState, size: u16, addr: u64, cqId: u16, memory: Memory): QueueState
    requires memory.Valid()
  {
    s.(size := size, sqAddr := addr, cqId := cqId, sqMem := memory.commands(addr, size),
       completions := s.completions.(size := size,
                                     slots := RecutEntries(s.completions.slots, size, s.cqAddr, memory)))
  }

  class Queue {
    const id: u16
    var size: u16
    var sqAddr: u64
    var cqAddr: u64
    var cqId: u16
    var sqHead: u16
    var sqTail: u16
    var cqHead: u16
    var cqTail: u16
    var cqPending: u16
    var cqPhase: bool
    var interrupts: bool
    var sqMem: seq<Command>
    var cqMem: seq<Entry>
    var refused: bool  // guest memory refuses writes to the completion ring

    constructor (id: u16)
      ensures this.id == id && sqAddr == cqAddr == 0 && !refused
      ensures size == 0 && sqHead == sqTail == 0 && !interrupts
      ensures cqHead == cqTail == cqPending == 0 && sqMem == [] && cqMem == [] && State() == NEW_QUEUE
    {
      this.id, size, cqId, sqHead, sqTail, cqHead, cqTail, cqPending := id, 0, 0, 0, 0, 0, 0, 0;
      cqPhase, interrupts, sqMem, cqMem, sqAddr, cqAddr, refused := false, false, [], [], 0, 0, false;
    }

    function Completions(): Ring
      reads this
    {
      Ring(size, cqHead, cqTail, cqPending, cqPhase, cqMem)
    }

    function State(): QueueState
      reads this
    {
      QueueState(size, sqAddr, cqAddr, cqId, sqHead, sqTail, interrupts, sqMem, Completions())
    }

    /** The submission side: the ring is there, and the head is inside. */
    ghost predicate Submits()
      reads this
    {
      0 < size && |sqMem| == size && sqHead < size
    }

    /** writeCompletionLocked */
    method WriteCompletion(c: Completion) returns (ok: bool)
      requires Completions().Shaped()
      modifies this`cqMem, this`cqTail, this`cqPending, this`cqPhase
      ensures ok <==> !refused
      ensures Completions() == if ok then old(Completions()).Post(c) else old(Completions())
    {
      if refused {
        return false;
      }
      cqMem := cqMem[cqTail := Entry(c, cqPhase)];
      WrapOnce(cqTail, size);
      cqTail := (cqTail + 1) % size;
      if cqPending < size {
        cqPending := cqPending + 1;
      }
      if cqTail == 0 {
        cqPhase := !cqPhase;
      }
      ok := true;
    }

    /** What adminCreateCQ does to the queue: a completion ring, and the submission ring cut to the new size. */
    method MakeCompletions(size: u16, addr: u64, ien: bool, refused: bool, memory: Memory)
      requires memory.Valid()
      modifies this`size, this`cqAddr, this`cqPhase, this`interrupts, this`refused, this`sqMem, this`cqMem
      ensures this.size == size && cqAddr == addr && cqPhase && interrupts == ien && this.refused == refused
      ensures cqMem == memory.entries(addr, size) && sqMem == RecutCommands(old(sqMem), size, sqAddr, memory)
      ensures State() == WithCompletions(old(State()), size, addr, ien, memory)
    {
      sqMem, cqMem := RecutCommands(sqMem, size, sqAddr, memory), memory.entries(addr, size);
      this.size, cqAddr, cqPhase, interrupts, this.refused := size, addr, true, ien, refused;
    }

    /** What adminCreateSQ does to the queue: a submission ring, and the completion ring cut to the new size. */
    method MakeSubmissions(size: u16, addr: u64, cqId: u16, memory: Memory)
      requires memory.Valid()
      modifies this`size, this`sqAddr, this`cqId, this`sqMem, this`cqMem
      ensures this.size == size && sqAddr == addr && this.cqId == cqId
      ensures sqMem == memory.commands(addr, size) && cqMem == RecutEntries(old(cqMem), size, cqAddr, memory)
      ensures State() == WithSubmissions(old(State()), size, addr, cqId, memory)
    {
      sqMem, cqMem := memory.commands(addr, size), RecutEntries(cqMem, size, cqAddr, memory);
      this.size, sqAddr, this.cqId := size, addr, cqId;
    }

    /** advanceCompletionHeadLocked; subtraction is in 16 bits. */
    method AdvanceHead(h: u16)
      modifies this`cqHead, this`cqPending
      ensures old(Completions()).Shaped() ==>
                h % size < size && Completions() == old(Completions()).Advance(h % size)
      ensures size == 0 ==> cqHead == h && cqPending == 0
      ensures size > 0 ==> cqHead == h % size && cqPending <= old(cqPending)
    {
      if size == 0 {
        cqHead, cqPending := h, 0;
        return;
      }
      var oldHead := cqHead;
      cqHead := h % size;
      var consumed := if cqHead < oldHead then Sub16(size + cqHead, oldHead) else cqHead - oldHead;
      if consumed == 0 && cqPending == size {
        cqPending := 0;
        return;
      }
      if consumed >= cqPending {
        cqPending := 0;
        return;
      }
      cqPending := cqPending - consumed;
    }
  }

  // ----- what the controller owes for a run of submissions -----

  /** How many entries the controller still has to take from a submission ring. */
  function Distance(head: nat, tail: nat, size: nat): int {
    if head <= tail then tail - head else size - head + tail
  }

  function Step(head: nat, size: nat): nat {
    if head + 1 == size then 0 else head + 1
  }

  function HeadAfter(head: nat, size: nat, taken: nat): nat {
    if taken == 0 then head else Step(HeadAfter(head, size, taken - 1), size)
  }

  /** However many commands are taken, the head stays in the ring, so that a tail outside of it is never reached. */
  lemma {:induction false} TailOutsideIsNeverReached(head: nat, size: nat, tail: nat, taken: nat)
    requires head < size <= tail
    ensures HeadAfter(head, size, taken) < size && HeadAfter(head, size, taken) != tail
  {
    if taken > 0 { TailOutsideIsNeverReached(head, size, tail, taken - 1); }
  }

  /** The completion owed for one command; an asynchronous event request on the admin queue gets none. */
  function Reply(cmd: Command, id: u16, next: u16, run: Command -> Option<Answer>): Option<seq<Completion>> {
    if id == ADMIN && cmd.opcode == ASYNC_EVENT then Some([])
    else if run(cmd).None? then None
    else Some([Completion(run(cmd).value.result, next, id, cmd.cid, run(cmd).value.status)])
  }

  /** The completions owed for the submissions from `head` up to `tail`; None if one cannot be carried out. */
  function Owed(sq: seq<Command>, id: u16, head: nat, tail: nat, run: Command -> Option<Answer>)
    : Option<seq<Completion>>
    requires head < |sq| < TWO16 && tail < |sq|
    decreases Distance(head, tail, |sq|)
  {
    if head == tail then Some([])
    else
      var first := Reply(sq[head], id, Step(head, |sq|), run);
      var rest := Owed(sq, id, Step(head, |sq|), tail, run);
      if first.None? || rest.None? then None else Some(first.value + rest.value)
  }

  /** The queues there are after an admin command. */
  function IdsAfter(ids: set<u16>, cmd: Command): set<u16> {
    if Creates(cmd) then ids + {cmd.qid} else if Deletes(cmd) then ids - {cmd.qid} else ids
  }

  /** The queues there are after the admin submissions from `head` up to `tail`. */
  function IdsAfterAll(ids: set<u16>, sq: seq<Command>, head: nat, tail: nat): set<u16>
    requires head < |sq| && tail < |sq|
    decreases Distance(head, tail, |sq|)
  {
    if head == tail then ids else IdsAfterAll(IdsAfter(ids, sq[head]), sq, Step(head, |sq|), tail)
  }

  /** The queues besides the admin queue after an admin command, as values. */
  function StatesAfter(states: map<u16, QueueState>, cmd: Command, memory: Memory): map<u16, QueueState>
    requires memory.Valid()
  {
    var s := if cmd.qid in states then states[cmd.qid] else NEW_QUEUE;
    if cmd.opcode == CREATE_CQ then
      states[cmd.qid := WithCompletions(s, SizeOf(cmd.field), cmd.addr, cmd.ien, memory)]
    else if cmd.opcode == CREATE_SQ then
      states[cmd.qid := WithSubmissions(s, SizeOf(cmd.field), cmd.addr, cmd.cqId, memory)]
    else if Deletes(cmd) then states - {cmd.qid}
    else states
  }

  /** The same after the admin submissions from `head` up to `tail`. */
  function StatesAfterAll(states: map<u16, QueueState>, sq: seq<Command>, head: nat, tail: nat, memory: Memory)
    : map<u16, QueueState>
    requires head < |sq| && tail < |sq| && memory.Valid()
    decreases Distance(head, tail, |sq|)
  {
    if head == tail then states
    else StatesAfterAll(StatesAfter(states, sq[head], memory), sq, Step(head, |sq|), tail, memory)
  }

  /** None of the submissions from `head` up to `tail` makes the admin queue anew. */
  predicate KeepsAdmin(sq: seq<Command>, head: nat, tail: nat)
    requires head < |sq| && tail < |sq|
    decreases Distance(head, tail, |sq|)
  {
    head == tail || (!RemakesAdmin(sq[head]) && KeepsAdmin(sq, Step(head, |sq|), tail))
  }

  /** One of the submissions from `head` up to `tail` makes that queue, anew if it exists. */
  predicate Makes(sq: seq<Command>, head: nat, tail: nat, id: u16)
    requires head < |sq| && tail < |sq|
    decreases Distance(head, tail, |sq|)
  {
    head != tail && ((Creates(sq[head]) && sq[head].qid == id) || Makes(sq, Step(head, |sq|), tail, id))
  }

  /** Completions posted one after another. */
  function PostAll(r: Ring, cs: seq<Completion>): (r': Ring)
    requires r.Shaped()
    ensures r'.Shaped() && r'.size == r.size
    decreases cs
  {
    if cs == [] then r else PostAll(r.Post(cs[0]), cs[1..])
  }

  /** Posting a batch that fits keeps the ring in step with its history. */
  lemma {:induction false} PostAllInStep(r: Ring, posted: seq<Completion>, consumed: nat, cs: seq<Completion>)
    requires InStep(r, posted, consumed) && r.pending + |cs| <= r.size
    ensures InStep(PostAll(r, cs), posted + cs, consumed)
    decreases cs
  {
    if cs == [] {
      assert posted + cs == posted;
    } else {
      PostInStep(r, posted, consumed, cs[0]);
      PostAllInStep(r.Post(cs[0]), posted + [cs[0]], consumed, cs[1..]);
      assert posted + [cs[0]] + cs[1..] == posted + cs;
    }
  }

  lemma {:induction false} PostAllOne(r: Ring, c: Completion)
    requires r.Shaped()
    ensures PostAll(r, []) == r && PostAll(r, [c]) == r.Post(c)
  {
    assert [c][1..] == [];
  }

  lemma {:induction false} PostAllAppend(r: Ring, a: seq<Completion>, b: seq<Completion>)
    requires r.Shaped()
    ensures PostAll(r, a + b) == PostAll(PostAll(r, a), b)
    decreases a
  {
    if a == [] {
      assert a + b == b;
    } else {
      PostAllAppend(r.Post(a[0]), a[1..], b);
      assert (a + b)[1..] == a[1..] + b;
    }
  }

  datatype Course = OnCourse | OffCourse

  /** Of what was owed at first, `rest` is left to be done, and the ring has the part before it. */
  ghost function CourseOf(owed: Option<seq<Completion>>, rest: Option<seq<Completion>>, answers: bool, r0: Ring,
                          r: Ring): Course
    requires r0.Shaped() && r.Shaped()
  {
    if && (owed.Some? <==> rest.Some?) && (!answers ==> (owed == Some([]) <==> rest == Some([])))
       && (owed.Some? ==> PostAll(r0, owed.value) == PostAll(r, rest.value))
    then OnCourse else OffCourse
  }

  lemma {:induction false} StaysOnCourse(owed: Option<seq<Completion>>, sq: seq<Command>, id: u16, head: nat, tail: nat,
                                         run: Command -> Option<Answer>, answers: bool, r0: Ring, r: Ring)
    requires head < |sq| < TWO16 && tail < |sq| && head != tail && r0.Shaped() && r.Shaped()
    requires CourseOf(owed, Owed(sq, id, head, tail, run), answers, r0, r) == OnCourse
    requires var first := Reply(sq[head], id, Step(head, |sq|), run); first.Some? && (answers || first.value == [])
    ensures var first, rest := Reply(sq[head], id, Step(head, |sq|), run), Owed(sq, id, Step(head, |sq|), tail, run);
            CourseOf(owed, rest, answers, r0, PostAll(r, first.value)) == OnCourse
  {
    var first, rest := Reply(sq[head], id, Step(head, |sq|), run), Owed(sq, id, Step(head, |sq|), tail, run);
    if rest.Some? { PostAllAppend(r, first.value, rest.value); }
  }

  /**
    The queues are on their way to `ids` and `states`; none of the admin submissions left makes the admin queue
    anew, and they make no queue that those from `first` on do not.
   */
  ghost function WayOf(ids: set<u16>, states: map<u16, QueueState>, first: nat, ids': set<u16>,
                       states': map<u16, QueueState>, sq: seq<Command>, head: nat, tail: nat, memory: Memory): Course
    requires first < |sq| && head < |sq| && tail < |sq| && memory.Valid()
  {
    if && ids == IdsAfterAll(ids', sq, head, tail) && states == StatesAfterAll(states', sq, head, tail, memory)
       && KeepsAdmin(sq, head, tail)
       && forall id :: Makes(sq, head, tail, id) ==> Makes(sq, first, tail, id)
    then OnCourse else OffCourse
  }

  lemma {:induction false} WayGoesOn(ids: set<u16>, states: map<u16, QueueState>, first: nat, ids': set<u16>,
                                     states': map<u16, QueueState>, sq: seq<Command>, head: nat, tail: nat,
                                     memory: Memory)
    requires first < |sq| && head < |sq| && tail < |sq| && head != tail && memory.Valid()
    requires WayOf(ids, states, first, ids', states', sq, head, tail, memory) == OnCourse
    ensures !RemakesAdmin(sq[head]) && (Creates(sq[head]) ==> Makes(sq, first, tail, sq[head].qid))
    ensures WayOf(ids, states, first, IdsAfter(ids', sq[head]), StatesAfter(states', sq[head], memory), sq,
                  Step(head, |sq|), tail, memory) == OnCourse
  {
    if Creates(sq[head]) { assert Makes(sq, head, tail, sq[head].qid); }
  }

  class Controller {
    var queues: map<u16, Queue>
    var intMask: bv32
    var irqHigh: bool

    constructor ()
      ensures queues == map[] && intMask == 0 && !irqHigh
    {
      queues, intMask, irqHigh := map[], 0, false;
    }

    ghost predicate Raised()
      reads this`queues, this`intMask, queues.Values
    {
      intMask & 1 == 0 && exists id :: id in queues && queues[id].interrupts && queues[id].cqPending != 0
    }

    /** updateIRQLocked */
    method UpdateIRQ()
      modifies this`irqHigh
      ensures irqHigh <==> Raised()
    {
      var high := false;
      if intMask & 1 == 0 {
        var left := queues.Keys;
        while left != {}
          invariant left <= queues.Keys && !high
          invariant forall id :: id in queues && id !in left ==> !(queues[id].interrupts && queues[id].cqPending != 0)
          decreases |left|
        {
          var id :| id in left;
          if queues[id].interrupts && queues[id].cqPending != 0 {
            assert Raised();
            high := true;
            break;
          }
          left := left - {id};
        }
      }
      irqHigh := high;
    }

    /** A write to INTMS. */
    method SetMask(value: bv32)
      modifies this`intMask, this`irqHigh
      ensures intMask == old(intMask) | value
      ensures irqHigh <==> Raised()
    {
      intMask := intMask | value;
      UpdateIRQ();
    }

    /** A write to INTMC. */
    method ClearMask(value: bv32)
      modifies this`intMask, this`irqHigh
      ensures intMask == old(intMask) & !value
      ensures irqHigh <==> Raised()
    {
      intMask := intMask & !value;
      UpdateIRQ();
    }

    /** Every queue is filed under its own number. */
    ghost predicate Filed()
      reads this`queues
    {
      forall id :: id in queues ==> queues[id].id == id
    }

    /** The queues besides the admin queue, as values. */
    ghost function States(): map<u16, QueueState>
      reads this`queues, queues.Values
    {
      map id | id in queues && id != ADMIN :: queues[id].State()
    }

    /** The queue that receives the completions of `q`, if it exists. */
    function CompletionQueue(q: Queue): Queue?
      reads this, q
    {
      if q.id == ADMIN then q else if q.cqId in queues then queues[q.cqId] else null
    }

    /** There is such a queue, and guest memory takes what is written to its ring. */
    predicate Answers(q: Queue)
      reads this, q, (if CompletionQueue(q) == null then {} else {CompletionQueue(q)})
    {
      CompletionQueue(q) != null && !CompletionQueue(q).refused
    }

    /** That queue as a set, for frames. */
    ghost function Sink(q: Queue): set<Queue>
      reads this, q
    {
      if CompletionQueue(q) == null then {} else {CompletionQueue(q)}
    }

    /** The queue of that number, made if there is none. */
    method Queued(qid: u16) returns (q: Queue)
      requires Filed()
      modifies this`queues
      ensures Filed() && qid in queues && queues == old(queues)[qid := q]
      ensures if qid in old(queues) then q == old(queues)[qid]
              else fresh(q) && q.size == 0 && q.sqHead == q.sqTail == 0 && !q.interrupts && q.sqMem == [] &&
                   q.cqHead == q.cqTail == q.cqPending == 0 && q.cqMem == [] && q.sqAddr == q.cqAddr == 0 &&
                   q.State() == NEW_QUEUE
    {
      if qid in queues {
        return queues[qid];
      }
      q := new Queue(qid);
      queues := queues[qid := q];
    }

    /** adminCreateCQ: the completion ring at `addr`, and a submission ring that there may be cut to the new size. */
    method CreateCompletionQueue(qid: u16, field: u16, ien: bool, addr: u64, memory: Memory, refused: bool)
      requires Filed() && memory.Valid()
      modifies this`queues, (if qid in queues then {queues[qid]} else {})
      ensures Filed() && qid in queues && queues == old(queues)[qid := queues[qid]]
      ensures var q := queues[qid];
              && q.size == (field + 1) % 65536 && q.cqAddr == addr && q.cqPhase && q.interrupts == ien
              && q.refused == refused
              && q.cqMem == memory.entries(addr, q.size)
              && (qid !in old(queues) ==> fresh(q) && q.Completions() == Fresh(q.size, q.cqMem))
      ensures qid in old(queues) ==>
                var q := old(queues)[qid];
                && queues[qid] == q && q.cqHead == old(queues[qid].cqHead) && q.cqTail == old(queues[qid].cqTail)
                && q.cqPending == old(queues[qid].cqPending) && q.sqAddr == old(queues[qid].sqAddr)
                && q.sqHead == old(queues[qid].sqHead) && q.sqTail == old(queues[qid].sqTail)
                && q.sqMem == RecutCommands(old(queues[qid].sqMem), q.size, q.sqAddr, memory)
      ensures var was := if qid in old(queues) then old(queues[qid].State()) else NEW_QUEUE;
              queues[qid].State() == WithCompletions(was, SizeOf(field), addr, ien, memory)
      ensures qid != ADMIN ==> States() == old(States())[qid := queues[qid].State()]
    {
      var q := Queued(qid);
      q.MakeCompletions(SizeOf(field), addr, ien, refused, memory);
    }

    /** adminCreateSQ: the submission ring at `addr`, and a completion ring that there may be cut to the new size. */
    method CreateSubmissionQueue(qid: u16, field: u16, cqId: u16, addr: u64, memory: Memory)
      requires Filed() && memory.Valid()
      modifies this`queues, (if qid in queues then {queues[qid]} else {})
      ensures Filed() && qid in queues && queues == old(queues)[qid := queues[qid]]
      ensures var q := queues[qid];
              && q.size == (field + 1) % 65536 && q.sqAddr == addr && q.cqId == cqId
              && q.sqMem == memory.commands(addr, q.size)
              && (qid !in old(queues) ==> fresh(q) && q.sqHead == q.sqTail == 0)
      ensures qid in old(queues) ==>
                var q := old(queues)[qid];
                && queues[qid] == q && q.sqHead == old(queues[qid].sqHead) && q.sqTail == old(queues[qid].sqTail)
                && q.cqAddr == old(queues[qid].cqAddr) && q.cqHead == old(queues[qid].cqHead)
                && q.cqTail == old(queues[qid].cqTail) && q.cqPending == old(queues[qid].cqPending)
                && q.cqMem == RecutEntries(old(queues[qid].cqMem), q.size, q.cqAddr, memory)
      ensures var was := if qid in old(queues) then old(queues[qid].State()) else NEW_QUEUE;
              queues[qid].State() == WithSubmissions(was, SizeOf(field), addr, cqId, memory)
      ensures qid != ADMIN ==> States() == old(States())[qid := queues[qid].State()]
    {
      var q := Queued(qid);
      q.MakeSubmissions(SizeOf(field), addr, cqId, memory);
    }

    /** What executeAdminLocked does to the queues. */
    method ChangeQueues(cmd: Command, memory: Memory, refused: bool)
      requires Filed() && memory.Valid()
      modifies this`queues, (if cmd.qid in queues && Creates(cmd) then {queues[cmd.qid]} else {})
      ensures Filed() && queues.Keys == IdsAfter(old(queues.Keys), cmd)
      ensures forall id :: id in queues ==>
                if id in old(queues) then queues[id] == old(queues)[id] else fresh(queues[id])
      ensures cmd.opcode == 1 ==>
                var q := queues[cmd.qid];
                && q.size == (cmd.field + 1) % 65536 && q.sqAddr == cmd.addr && q.cqId == cmd.cqId
                && q.sqMem == memory.commands(cmd.addr, q.size)
      ensures cmd.opcode == 5 ==>
                var q := queues[cmd.qid];
                && q.size == (cmd.field + 1) % 65536 && q.cqAddr == cmd.addr && q.interrupts == cmd.ien && q.cqPhase
                && q.cqMem == memory.entries(cmd.addr, q.size)
      ensures !RemakesAdmin(cmd) ==> States() == StatesAfter(old(States()), cmd, memory)
    {
      if cmd.opcode == CREATE_CQ {
        CreateCompletionQueue(cmd.qid, cmd.field, cmd.ien, cmd.addr, memory, refused);
      } else if cmd.opcode == CREATE_SQ {
        CreateSubmissionQueue(cmd.qid, cmd.field, cmd.cqId, cmd.addr, memory);
      } else if Deletes(cmd) {
        queues := queues - {cmd.qid};
      }
    }

    /**
      The commands of the queue can be carried out, and answered if there is a queue for the answers. The
      queue is filed under its number, unless it is the admin queue and one of its own commands deleted it.
     */
    ghost predicate Serves(q: Queue, memory: Memory)
      reads this, queues.Values, q
    {
      && Filed() && (if q.id in queues then queues[q.id] == q else q.id == ADMIN) && q.Submits() && memory.Valid()
      && (CompletionQueue(q) != null ==> CompletionQueue(q).Completions().Shaped())
    }

    /** The commands of `q` up to `tail` have no business with `x`. */
    ghost predicate Spares(q: Queue, tail: u16, x: Queue)
      requires q.Submits() && tail < q.size
      reads this, q
    {
      x != q && x !in Sink(q) && !(q.id == ADMIN && Makes(q.sqMem, q.sqHead, tail, x.id))
    }

    /** What is done to the admin queue itself does not show in the other queues. */
    twostate lemma StatesKept(q: Queue)
      requires old(Filed()) && queues == old(queues) && q.id == ADMIN
      requires forall x :: x in queues.Values && x != q ==> unchanged(x)
      ensures States() == old(States())
    {
      forall id | id in queues && id != ADMIN ensures queues[id].State() == old(queues[id].State()) {
        var x := queues[id];
        assert x in queues.Values && x != q && unchanged(x);
      }
    }

    /** Moves the head of a submission ring on by one. */
    method TakeOff(q: Queue)
      requires q.Submits() && Filed()
      modifies q`sqHead
      ensures q.sqHead == Step(old(q.sqHead), q.size)
      ensures q.id == ADMIN ==> States() == old(States())
    {
      WrapOnce(q.sqHead, q.size);
      q.sqHead := (q.sqHead + 1) % q.size;
      if q.id == ADMIN { StatesKept(q); }
    }

    /** Takes a command off and answers it; that fails without a completion queue, or with one that is refused. */
    method Complete(q: Queue, cmd: Command, a: Answer) returns (ok: bool)
      requires q.Submits() && Filed() && (CompletionQueue(q) != null ==> CompletionQueue(q).Completions().Shaped())
      modifies q`sqHead, Sink(q)`cqMem, Sink(q)`cqTail, Sink(q)`cqPending, Sink(q)`cqPhase
      ensures q.sqHead == Step(old(q.sqHead), q.size) && (ok <==> Answers(q))
      ensures q.id == ADMIN ==> States() == old(States())
      ensures CompletionQueue(q) != null ==>
                var r := old(CompletionQueue(q).Completions());
                var c := Completion(a.result, q.sqHead, q.id, cmd.cid, a.status);
                CompletionQueue(q).Completions() == if ok then r.Post(c) else r
    {
      TakeOff(q);
      var cq := CompletionQueue(q);
      if cq == null {
        return false;
      }
      ok := cq.WriteCompletion(Completion(a.result, q.sqHead, q.id, cmd.cid, a.status));
      if q.id == ADMIN { StatesKept(q); }
    }

    /** executeCommandLocked, as far as queues are concerned: only admin commands change them. */
    method Execute(q: Queue, cmd: Command, memory: Memory)
      requires Serves(q, memory) && (q.id == ADMIN ==> !RemakesAdmin(cmd))
      modifies this`queues, (if q.id == ADMIN && Creates(cmd) && cmd.qid in queues then {queues[cmd.qid]} else {})
      ensures unchanged(q) && Serves(q, memory) && CompletionQueue(q) == old(CompletionQueue(q))
      ensures CompletionQueue(q) != null ==> unchanged(CompletionQueue(q))
      ensures if q.id == ADMIN then queues.Keys == IdsAfter(old(queues.Keys), cmd) else queues == old(queues)
      ensures q.id == ADMIN ==> States() == StatesAfter(old(States()), cmd, memory)
      ensures forall id :: id in queues ==>
                if id in old(queues) then queues[id] == old(queues)[id] else fresh(queues[id])
    {
      if q.id == ADMIN {
        var refused := *;
        ChangeQueues(cmd, memory, refused);
      }
    }

    /**
      One turn of processSubmissionQueueLocked. A command is answered in the completion queue; an admin
      command may make or delete other queues.
     */
    method TakeOne(q: Queue, run: Command -> Option<Answer>, memory: Memory) returns (ok: bool)
      requires Serves(q, memory) && (q.id == ADMIN ==> !RemakesAdmin(q.sqMem[q.sqHead]))
      modifies this`queues, queues.Values, q
      ensures q.size == old(q.size) && q.sqTail == old(q.sqTail) && q.sqMem == old(q.sqMem) && q.cqId == old(q.cqId)
      ensures Answers(q) == old(Answers(q))
      ensures var cmd := old(q.sqMem[q.sqHead]);
              var reply := Reply(cmd, q.id, Step(old(q.sqHead), q.size), run);
              if reply.None? then !ok && q.sqHead == old(q.sqHead) && queues == old(queues)
              else
                && q.sqHead == Step(old(q.sqHead), q.size)
                && (ok <==> reply.value == [] || old(Answers(q)))
                && (old(CompletionQueue(q)) != null ==>
                    CompletionQueue(q) == old(CompletionQueue(q)) &&
                    CompletionQueue(q).Completions() ==
                    PostAll(old(CompletionQueue(q).Completions()), if ok then reply.value else []))
                && (if q.id == ADMIN then queues.Keys == IdsAfter(old(queues.Keys), cmd) else queues == old(queues))
                && (q.id == ADMIN ==> States() == StatesAfter(old(States()), cmd, memory))
      ensures Serves(q, memory)
      ensures forall id :: id in queues ==>
                if id in old(queues) then queues[id] == old(queues)[id] else fresh(queues[id])
      ensures var cmd := old(q.sqMem[q.sqHead]);
              forall x :: x in old(queues.Values) && x !in old(Sink(q)) + {q} ==>
                (q.id == ADMIN && Creates(cmd) && cmd.qid == x.id) || unchanged(x)
    {
      var cmd := q.sqMem[q.sqHead];
      if q.id == ADMIN && cmd.opcode == ASYNC_EVENT {
        TakeOff(q);
        return true;
      }
      var a := run(cmd);
      if a.None? {
        return false;
      }
      ghost var r := if CompletionQueue(q) != null then CompletionQueue(q).Completions() else Fresh(0, []);
      Execute(q, cmd, memory);
      ok := Complete(q, cmd, a.value);
      if CompletionQueue(q) != null {
        PostAllOne(r, Completion(a.value.result, q.sqHead, q.id, cmd.cid, a.value.status));
      }
    }

    /** The loop of processSubmissionQueueLocked. */
    method TakeAll(q: Queue, run: Command -> Option<Answer>, memory: Memory) returns (ok: bool)
      requires Serves(q, memory) && q.sqTail < q.size
      requires q.id == ADMIN ==> KeepsAdmin(q.sqMem, q.sqHead, q.sqTail)
      modifies this`queues, queues.Values, q
      ensures ok ==> q.sqHead == old(q.sqTail)
      ensures old(CompletionQueue(q)) != null ==>
                var owed := old(Owed(q.sqMem, q.id, q.sqHead, q.sqTail, run));
                (ok <==> owed.Some? && (old(Answers(q)) || owed.value == [])) &&
                (ok ==> CompletionQueue(q) == old(CompletionQueue(q)) &&
                        CompletionQueue(q).Completions() == PostAll(old(CompletionQueue(q).Completions()), owed.value))
      ensures old(CompletionQueue(q)) == null ==>
                (ok <==> old(q.sqHead == q.sqTail)) &&
                q.sqHead == if ok || run(old(q.sqMem[q.sqHead])).None? then old(q.sqHead)
                            else Step(old(q.sqHead), q.size)
      ensures ok && q.id == ADMIN ==> queues.Keys == old(IdsAfterAll(queues.Keys, q.sqMem, q.sqHead, q.sqTail))
      ensures ok && q.id == ADMIN ==>
                States() == StatesAfterAll(old(States()), old(q.sqMem), old(q.sqHead), old(q.sqTail), memory)
      ensures q.id != ADMIN ==> queues == old(queues)
      ensures Filed() && forall id :: id in queues ==> queues[id] in old(queues.Values) || fresh(queues[id])
      ensures forall x :: x in old(queues.Values) && old(Spares(q, q.sqTail, x)) ==> unchanged(x)
    {
      ghost var sq, tail := q.sqMem, q.sqTail;
      ghost var cq, answers := CompletionQueue(q), Answers(q);
      ghost var r0 := if cq != null then cq.Completions() else Fresh(0, []);
      ghost var owed := Owed(sq, q.id, q.sqHead, tail, run);
      ghost var first := q.sqHead;
      ghost var ids := IdsAfterAll(queues.Keys, sq, first, tail);
      ghost var states := StatesAfterAll(States(), sq, first, tail, memory);
      while q.sqHead != q.sqTail
        invariant Serves(q, memory) && q.sqMem == sq && q.sqTail == tail < q.size && CompletionQueue(q) == cq
        invariant forall id :: id in queues ==> queues[id] in old(queues.Values) || fresh(queues[id])
        invariant cq == null ==> q.sqHead == first
        invariant Answers(q) == answers
        invariant cq != null ==>
                    CourseOf(owed, Owed(sq, q.id, q.sqHead, tail, run), answers, r0, cq.Completions()) == OnCourse
        invariant if q.id == ADMIN
                  then WayOf(ids, states, first, queues.Keys, States(), sq, q.sqHead, tail, memory) == OnCourse
                  else queues == old(queues)
        invariant forall x :: x in old(queues.Values) && old(Spares(q, q.sqTail, x)) ==> unchanged(x)
        decreases Distance(q.sqHead, tail, q.size)
      {
        ghost var head := q.sqHead;
        ghost var r := if cq != null then cq.Completions() else Fresh(0, []);
        if q.id == ADMIN { WayGoesOn(ids, states, first, queues.Keys, States(), sq, head, tail, memory); }
        ok := TakeOne(q, run, memory);
        if !ok {
          return;
        }
        if cq != null { StaysOnCourse(owed, sq, q.id, head, tail, run, answers, r0, r); }
      }
      ok := true;
    }

    /**
      processSubmissionQueueLocked: every command up to the new tail is answered exactly once, in order, in
      its completion ring, and the interrupt line then tells whether completions are pending. Without a
      completion queue, or with one that cannot be written, the first command that is to be answered is still
      carried out, and taken off, before that fails.
     */
    method ProcessSubmissions(q: Queue, run: Command -> Option<Answer>, memory: Memory) returns (ok: bool)
      requires Serves(q, memory) && q.sqTail < q.size
      requires q.id == ADMIN ==> KeepsAdmin(q.sqMem, q.sqHead, q.sqTail)
      modifies this`irqHigh, this`queues, queues.Values, q
      ensures ok ==> q.sqHead == old(q.sqTail) && (irqHigh <==> Raised())
      ensures old(CompletionQueue(q)) != null ==>
                var owed := old(Owed(q.sqMem, q.id, q.sqHead, q.sqTail, run));
                (ok <==> owed.Some? && (old(Answers(q)) || owed.value == [])) &&
                (ok ==> CompletionQueue(q) == old(CompletionQueue(q)) &&
                        CompletionQueue(q).Completions() == PostAll(old(CompletionQueue(q).Completions()), owed.value))
      ensures old(CompletionQueue(q)) == null ==>
                (ok <==> old(q.sqHead == q.sqTail)) &&
                q.sqHead == if ok || run(old(q.sqMem[q.sqHead])).None? then old(q.sqHead)
                            else Step(old(q.sqHead), q.size)
      ensures ok && q.id == ADMIN ==> queues.Keys == old(IdsAfterAll(queues.Keys, q.sqMem, q.sqHead, q.sqTail))
      ensures ok && q.id == ADMIN ==>
                States() == StatesAfterAll(old(States()), old(q.sqMem), old(q.sqHead), old(q.sqTail), memory)
      ensures q.id != ADMIN ==> queues == old(queues)
      ensures Filed() && forall id :: id in queues ==> queues[id] in old(queues.Values) || fresh(queues[id])
      ensures forall x :: x in old(queues.Values) && old(Spares(q, q.sqTail, x)) ==> unchanged(x)
    {
      ok := TakeAll(q, run, memory);
      if ok {
        UpdateIRQ();
      }
    }

    /**
      A write to a submission doorbell. The tail is inside the ring: with another one the source's loop goes
      round the ring for as long as no command fails.
     */
    method RingSubmission(q: Queue, value: u16, run: Command -> Option<Answer>, memory: Memory) returns (ok: bool)
      requires Serves(q, memory) && value < q.size && (q.id == ADMIN ==> KeepsAdmin(q.sqMem, q.sqHead, value))
      modifies this`irqHigh, this`queues, queues.Values, q
      ensures ok ==> q.sqHead == value && (irqHigh <==> Raised())
      ensures old(CompletionQueue(q)) != null ==>
                var owed := old(Owed(q.sqMem, q.id, q.sqHead, value, run));
                (ok <==> owed.Some? && (old(Answers(q)) || owed.value == [])) &&
                (ok ==> CompletionQueue(q) == old(CompletionQueue(q)) &&
                        CompletionQueue(q).Completions() == PostAll(old(CompletionQueue(q).Completions()), owed.value))
      ensures old(CompletionQueue(q)) == null ==> (ok <==> old(q.sqHead) == value)
      ensures ok && q.id == ADMIN ==> queues.Keys == old(IdsAfterAll(queues.Keys, q.sqMem, q.sqHead, value))
      ensures ok && q.id == ADMIN ==>
                States() == StatesAfterAll(old(States()), old(q.sqMem), old(q.sqHead), value, memory)
      ensures q.id != ADMIN ==> queues == old(queues)
      ensures Filed() && forall id :: id in queues ==> queues[id] in old(queues.Values) || fresh(queues[id])
      ensures forall x :: x in old(queues.Values) && old(Spares(q, value, x)) ==> unchanged(x)
    {
      q.sqTail := value;
      if q.id == ADMIN { StatesKept(q); }
      ok := ProcessSubmissions(q, run, memory);
    }

    /** A write to a completion doorbell. */
    method RingCompletion(q: Queue, value: u16)
      modifies this`irqHigh, q`cqHead, q`cqPending
      ensures irqHigh <==> Raised()
      ensures old(q.Completions()).Shaped() ==>
                value % q.size < q.size && q.Completions() == old(q.Completions()).Advance(value % q.size)
    {
      q.AdvanceHead(value);
      UpdateIRQ();
    }

    /** A doorbell write: two registers per queue, even ones for submissions; a missing queue is ignored. */
    method WriteDoorbell(offset: nat, value: u16, run: Command -> Option<Answer>, memory: Memory) returns (ok: bool)
      requires var qid := (offset / 8) % TWO16;
               qid in queues && (offset / 4) % 2 == 0 ==>
                 && Serves(queues[qid], memory) && value < queues[qid].size
                 && (qid == ADMIN ==> KeepsAdmin(queues[qid].sqMem, queues[qid].sqHead, value))
      modifies this`irqHigh, this`queues, queues.Values
      ensures old(Filed()) ==> Filed()
      ensures forall id :: id in queues ==> queues[id] in old(queues.Values) || fresh(queues[id])
      ensures var qid := (offset / 8) % TWO16;
              if qid !in old(queues) then
                && ok && irqHigh == old(irqHigh) && queues == old(queues)
                && forall x :: x in old(queues.Values) ==> unchanged(x)
              else if (offset / 4) % 2 == 1 then
                && ok && queues == old(queues) && (irqHigh <==> Raised())
                && (forall x :: x in old(queues.Values) && x != old(queues)[qid] ==> unchanged(x))
                && (old(queues[qid].Completions()).Shaped() ==>
                    value % old(queues[qid].size) < old(queues[qid].size) &&
                    queues[qid].Completions() == old(queues[qid].Completions()).Advance(value % old(queues[qid].size)))
              else
                var q, cq := old(queues)[qid], old(CompletionQueue(queues[qid]));
                var owed := old(Owed(queues[qid].sqMem, queues[qid].id, queues[qid].sqHead, value, run));
                && (ok <==> if cq == null then old(queues[qid].sqHead) == value
                            else owed.Some? && (old(Answers(queues[qid])) || owed.value == []))
                && (ok ==> q.sqHead == value && (irqHigh <==> Raised()))
                && (ok && cq != null ==>
                    cq.Completions() == PostAll(old(CompletionQueue(queues[qid]).Completions()), owed.value))
                && (q.id != ADMIN ==> queues == old(queues))
                && (ok && q.id == ADMIN ==>
                    && queues.Keys == old(IdsAfterAll(queues.Keys, queues[qid].sqMem, queues[qid].sqHead, value))
                    && States() == old(StatesAfterAll(States(), queues[qid].sqMem, queues[qid].sqHead, value, memory)))
                && (forall x :: x in old(queues.Values) && old(Spares(queues[qid], value, x)) ==> unchanged(x))
    {
      var index := offset / 4;
      var qid := (index / 2) % TWO16;
      if qid !in queues {
        return true;
      }
      var q := queues[qid];
      if index % 2 == 0 {
        ok := RingSubmission(q, value, run, memory);
      } else {
        RingCompletion(q, value);
        ok := true;
      }
    }
  }
}
