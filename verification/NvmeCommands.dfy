/** Read and write commands: the backend, the scratch buffer, and the choice of the zero-copy path. */
module NvmeCommands {
  import opened Bytes
  import opened Common
  import opened NvmeBytes
  import opened NvmePrpSpec
  import opened NvmeTransfer

  /** How a command ends: a completion with a status, or an error that stops queue processing. */
  datatype Outcome = Completed(status: nat) | Aborted

  /** The backend's bytes from `offset` on, at most `size` of them. */
  function Available(backend: seq<byte>, offset: nat, size: nat): (s: seq<byte>)
    ensures |s| <= size
  {
    if offset >= |backend| then [] else backend[offset..offset + Min(size, |backend| - offset)]
  }

  /** What a read of `size` bytes at `offset` is to deliver: backend content, then a zero-filled tail. */
  function DeviceBlock(backend: seq<byte>, offset: nat, size: nat): (s: seq<byte>)
    ensures |s| == size
  {
    var s := Available(backend, offset, size);
    s + Zeros(size - |s|)
  }

  /** The backend after a write; writing behind the end grows it, as a file does. */
  function Stored(backend: seq<byte>, offset: nat, data: seq<byte>): seq<byte> {
    if data == [] then backend
    else
      var grown := if |backend| < offset + |data| then backend + Zeros(offset + |data| - |backend|) else backend;
      Splice(grown, offset, data)
  }

  /** Byte `i` of what a read delivers: the backend's at offset + i, or zero behind its end. */
  lemma {:induction false} DeviceBlockAt(backend: seq<byte>, offset: nat, size: nat, i: nat)
    requires i < size
    ensures DeviceBlock(backend, offset, size)[i] == if offset + i < |backend| then backend[offset + i] else 0
  {
    var s := Available(backend, offset, size);
    assert i < |s| ==> s[i] == backend[offset + i];
  }

  /** Byte `x` of the backend after a write: the data's, the old one, or zero in a gap behind the old end. */
  lemma {:induction false} StoredAt(backend: seq<byte>, offset: nat, data: seq<byte>, x: nat)
    requires data != [] && x < Max(|backend|, offset + |data|)
    ensures |Stored(backend, offset, data)| == Max(|backend|, offset + |data|)
    ensures Stored(backend, offset, data)[x] ==
            if offset <= x < offset + |data| then data[x - offset] else if x < |backend| then backend[x] else 0
  {}

  /**
    What ReadAt of the backend did: the bytes it stored at the front of the buffer, the count it
    returned, and whether it returned an error other than end of file. It may have stored something
    before an error.
   */
  datatype ReadReply = ReadReply(filled: seq<byte>, n: nat, fails: bool) {
    predicate Fits(size: nat) { n <= |filled| <= size }

    /** The buffer once what lies behind the count is cleared. */
    function Delivered(size: nat): (s: seq<byte>)
      requires Fits(size)
      ensures |s| == size
    {
      filled[..n] + Zeros(size - n)
    }
  }

  /** A read that succeeds on the backend's content. */
  predicate Honest(backend: seq<byte>, offset: nat, size: nat, r: ReadReply) {
    r.Fits(size) && !r.fails && r.filled[..r.n] == Available(backend, offset, size)
  }

  lemma {:induction false} HonestDelivers(backend: seq<byte>, offset: nat, size: nat, r: ReadReply)
    requires Honest(backend, offset, size, r)
    ensures r.Delivered(size) == DeviceBlock(backend, offset, size)
  {}

  /** What WriteAt of the backend did: how many bytes it stored, the count it returned, and whether it failed. */
  datatype WriteReply = WriteReply(stored: nat, n: nat, fails: bool) {
    predicate Fits(size: nat) { stored <= size && n <= size }
  }

  /** The bytes of a list of pages, one after another. */
  function Gather(ram: Ram, ps: seq<Piece>): Option<seq<byte>> {
    if ps == [] then Some([])
    else
      var p, r := ps[|ps| - 1], Gather(ram, ps[..|ps| - 1]);
      if r.None? || p.addr == 0 || !ram.Mapped(p.addr, p.len) then None else Some(r.value + ram.Peek(p.addr, p.len))
  }

  lemma {:induction false} SpliceTail(front: seq<byte>, buf: seq<byte>, off: nat, part: seq<byte>)
    requires off == |front| && off + |part| <= |buf|
    ensures Splice(front + buf[off..], off, part) == front + part + buf[off + |part|..]
  {}

  /** Reading pages that tile a prefix of the buffer fills that prefix with their bytes. */
  lemma {:induction false} GatherMove(ram: Ram, buf: seq<byte>, ps: seq<Piece>, to: nat)
    requires Tiles(ps, 0, to) && to <= |buf|
    ensures var g := Gather(ram, ps);
            (g.Some? ==> |g.value| == to) &&
            Move(Mem(ram, buf), ps, false) == if g.None? then None else Some(Mem(ram, g.value + buf[to..]))
  {
    if ps == [] {
      assert [] + buf[0..] == buf;
    } else {
      var p := ps[|ps| - 1];
      GatherMove(ram, buf, ps[..|ps| - 1], p.off);
      var r := Gather(ram, ps[..|ps| - 1]);
      if r.Some? && ram.Mapped(p.addr, p.len) { SpliceTail(r.value, buf, p.off, ram.Peek(p.addr, p.len)); }
    }
  }

  /** The bytes a write command takes from guest memory, if all of its pages can be read. */
  function Source(ram: Ram, page: PageSize, prp1: u64, prp2: u64, size: nat): Option<seq<byte>> {
    var plan := Plan(ram, page, prp1, prp2, size);
    if plan.complete then Gather(ram, plan.items) else None
  }

  /** The scratch buffer's old content does not matter for a read of guest memory. */
  lemma {:induction false} SourceIsReference(m: Mem, page: PageSize, prp1: u64, prp2: u64)
    requires |m.buf| > 0
    ensures var g := Source(m.ram, page, prp1, prp2, |m.buf|);
            (g.Some? ==> |g.value| == |m.buf|) &&
            Reference(m, page, prp1, prp2, false) == if g.None? then None else Some(Mem(m.ram, g.value))
  {
    var plan := Plan(m.ram, page, prp1, prp2, |m.buf|);
    if plan.complete {
      PlanTiles(m.ram, page, prp1, prp2, |m.buf|);
      GatherMove(m.ram, m.buf, plan.items, |m.buf|);
      assert forall g: seq<byte> :: g + m.buf[|m.buf|..] == g;
    }
  }

  lemma {:induction false} MissingPRP1(m: Mem, page: PageSize, prp2: u64, write: bool)
    requires |m.buf| > 0
    ensures Reference(m, page, 0, prp2, write).None?
  {
    var plan := Plan(m.ram, page, 0, prp2, |m.buf|);
    FirstOfPlan(m, page, 0, prp2, write);
    MoveFailsEarly(m, plan.items, 1, write);
  }

  /** The command's pages are one mapped stretch of guest memory. */
  ghost predicate OneStretch(ram: Ram, page: PageSize, prp1: u64, prp2: u64, size: nat) {
    var plan := Plan(ram, page, prp1, prp2, size);
    plan.complete && InOrder(plan.items, prp1) && ram.Mapped(prp1, size)
  }

  // ----- the two paths of a command -----

  /** How a read ends; `PartWay` if a page could not be moved, with some of the others moved. */
  datatype ReadEnd = ReadEnd(ram: Ram, o: Outcome) | PartWay

  /** The zero-copy path: the backend stores into guest memory itself. */
  function DirectRead(ram: Ram, prp1: u64, size: nat, r: ReadReply): ReadEnd
    requires ram.Mapped(prp1, size) && r.Fits(size)
  {
    if r.fails then ReadEnd(ram.Poke(prp1, r.filled), Aborted)
    else ReadEnd(ram.Poke(prp1, r.Delivered(size)), Completed(0))
  }

  /** The scattered path: the backend stores into the scratch buffer, which is then moved page by page. */
  function ScatteredRead(ram: Ram, page: PageSize, prp1: u64, prp2: u64, size: nat, r: ReadReply): ReadEnd
    requires r.Fits(size)
  {
    if r.fails then ReadEnd(ram, Completed(1))
    else
      var want := Reference(Mem(ram, r.Delivered(size)), page, prp1, prp2, true);
      if want.None? then PartWay else ReadEnd(want.value.ram, Completed(0))
  }

  lemma {:induction false} PokeSame(ram: Ram, addr: nat, data: seq<byte>)
    requires ram.Mapped(addr, |data|)
    ensures ram.Poke(addr, data) == ram <==> ram.Peek(addr, |data|) == data
  {
    var at := addr - ram.base;
    if ram.Poke(addr, data) == ram {
      assert Splice(ram.bytes, at, data)[at..at + |data|] == data;
    }
    if ram.Peek(addr, |data|) == data {
      assert Splice(ram.bytes, at, data) == ram.bytes;
    }
  }

  /**
    Where the zero-copy path is open, the paths leave the same memory exactly when the backend did not
    fail, or failed having stored only what was there already; they report the same exactly when it did not fail.
   */
  lemma {:induction false} ReadPathsAgree(ram: Ram, page: PageSize, prp1: u64, prp2: u64, size: nat, r: ReadReply)
    requires ram.Valid() && size > 0 && prp1 != 0 && OneStretch(ram, page, prp1, prp2, size) && r.Fits(size)
    ensures var d, s := DirectRead(ram, prp1, size, r), ScatteredRead(ram, page, prp1, prp2, size, r);
            && s.ReadEnd?
            && (d.ram == s.ram <==> !r.fails || ram.Peek(prp1, |r.filled|) == r.filled)
            && (d.o == s.o <==> !r.fails)
  {
    if r.fails {
      PokeSame(ram, prp1, r.filled);
    } else {
      var block := r.Delivered(size);
      ZeroCopyAgrees(Mem(ram, block), page, prp1, prp2, true);
      assert block[0..0 + size] == block;
    }
  }

  /** A block read that fails after one byte: guest memory differs between the paths. */
  lemma {:induction false} FailedReadDiffers(slot: (seq<byte>, nat) -> u64)
    ensures var ram, r := Ram(4096, Zeros(512), slot), ReadReply([1], 0, true);
            && ram.Valid() && OneStretch(ram, 4096, 4096, 0, 512)
            && DirectRead(ram, 4096, 512, r) != ScatteredRead(ram, 4096, 4096, 0, 512, r)
            && DirectRead(ram, 4096, 512, r).ram != ram
  {
    var ram, r := Ram(4096, Zeros(512), slot), ReadReply([1], 0, true);
    InPageIsMod(4096, 4096);
    OnePage(Piece(4096, 512, 0));
    PokeSame(ram, 4096, [1]);
    assert ram.Peek(4096, 1)[0] == 0;
  }

  /** Byte `i` of what a write command takes is the one at its address. */
  lemma {:induction false} SourceAt(ram: Ram, page: PageSize, prp1: u64, prp2: u64, size: nat, i: nat)
    requires i < size && Source(ram, page, prp1, prp2, size).Some?
    ensures var s, x := Source(ram, page, prp1, prp2, size).value, ByteAddress(ram, page, prp1, prp2, size, i);
            |s| == size && x.Some? && ram.Mapped(x.value, 1) && s[i] == ByteAt(ram, x.value)
  {
    var m := Mem(ram, Zeros(size));
    SourceIsReference(m, page, prp1, prp2);
    CommandReads(m, page, prp1, prp2, i);
  }

  /** How a write ends on each path. */
  function DirectWrite(size: nat, r: WriteReply): Outcome { if r.fails || r.n != size then Aborted else Completed(0) }
  function ScatteredWrite(r: WriteReply): Outcome { if r.fails then Completed(1) else Completed(0) }

  /** The paths of a write report the same exactly when the backend took everything without an error. */
  lemma {:induction false} WritePathsAgree(size: nat, r: WriteReply)
    ensures DirectWrite(size, r) == ScatteredWrite(r) <==> !r.fails && r.n == size
  {}

  /** Half a block stored without an error is refused on one path and reported complete on the other. */
  lemma {:induction false} ShortWriteDiffers()
    ensures var r := WriteReply(256, 256, false); DirectWrite(512, r) == Aborted && ScatteredWrite(r) == Completed(0)
  {}

  lemma {:induction false} NothingMoved(ram: Ram, page: PageSize, prp1: u64, prp2: u64, buf: seq<byte>)
    ensures StoppedIn(Mem(ram, buf), Plan(ram, page, prp1, prp2, |buf|).items, true, Mem(ram, buf))
  {
    assert MovedFirst(Mem(ram, buf), Plan(ram, page, prp1, prp2, |buf|).items, true, Mem(ram, buf), 0);
  }

  /** Writing the first pages of a command to guest memory leaves the buffer alone. */
  lemma {:induction false} StoppedKeepsBuf(m0: Mem, page: PageSize, prp1: u64, prp2: u64, m: Mem)
    ensures StoppedIn(m0, Plan(m0.ram, page, prp1, prp2, |m0.buf|).items, true, m) ==> m == m0.(ram := m.ram)
  {
    var items := Plan(m0.ram, page, prp1, prp2, |m0.buf|).items;
    if f: nat :| MovedFirst(m0, items, true, m, f) {
      WriteKeepsBuf(m0, items[..f]);
    }
  }

  class Namespace {
    const controller: Controller
    const slicer: bool  // guest memory can be addressed as host slices
    var backend: seq<byte>

    constructor (controller: Controller, slicer: bool, backend: seq<byte>)
      ensures this.controller == controller && this.slicer == slicer && this.backend == backend
    {
      this.controller, this.slicer, this.backend := controller, slicer, backend;
    }

    /** scratchLocked: the buffer, at the wanted size, with whatever it held before. */
    method Scratch(size: nat)
      modifies controller`mem
      ensures controller.mem.ram == old(controller.mem.ram) && |controller.mem.buf| == size
    {
      if |controller.mem.buf| < size {
        controller.mem := controller.mem.(buf := Zeros(size));
      }
      controller.mem := controller.mem.(buf := controller.mem.buf[..size]);
    }

    /** The zero-copy path is open: slices work, the pages are contiguous and mapped as one. */
    method TakesSlice(size: nat, prp1: u64, prp2: u64) returns (ok: bool)
      requires size > 0 && controller.mem.ram.Valid()
      ensures ok <==> slicer && prp1 != 0 && OneStretch(controller.mem.ram, controller.page, prp1, prp2, size)
    {
      if !slicer || prp1 == 0 {
        return false;
      }
      ok := controller.Contiguous(prp1, prp2, size);
      ok := ok && controller.mem.ram.Mapped(prp1, size);
    }

    /**
      A read command. While the backend does not fail, guest memory ends up as if the block had been
      moved page by page in list order, whatever path is taken. When it fails, the scattered path leaves
      guest memory alone, and the zero-copy path leaves in it what the backend had stored.
     */
    method ExecuteRead(offset: nat, size: nat, prp1: u64, prp2: u64, r: ReadReply) returns (o: Outcome)
      requires size > 0 && controller.mem.ram.Valid() && r.Fits(size)
      modifies controller`mem
      ensures r.fails ==>
                if slicer && prp1 == 0 then o == Aborted && controller.mem.ram == old(controller.mem.ram)
                else if slicer && OneStretch(old(controller.mem.ram), controller.page, prp1, prp2, size) then
                  o == Aborted && controller.mem.ram == old(controller.mem.ram).Poke(prp1, r.filled)
                else o == Completed(1) && controller.mem.ram == old(controller.mem.ram)
      ensures !r.fails && ListsApart(old(controller.mem.ram), controller.page, prp1, prp2, size) ==>
                var start := Mem(old(controller.mem.ram), r.Delivered(size));
                var want := Reference(start, controller.page, prp1, prp2, true);
                var items := Plan(old(controller.mem.ram), controller.page, prp1, prp2, size).items;
                && (o == if want.Some? then Completed(0) else Aborted)
                && (want.Some? ==> controller.mem.ram == want.value.ram)
                && (want.None? ==> StoppedIn(start, items, true, start.(ram := controller.mem.ram)))
      ensures Honest(backend, offset, size, r) ==> r.Delivered(size) == DeviceBlock(backend, offset, size)
    {
      if Honest(backend, offset, size, r) { HonestDelivers(backend, offset, size, r); }
      if slicer && prp1 == 0 {
        MissingPRP1(Mem(controller.mem.ram, r.Delivered(size)), controller.page, prp2, true);
        NothingMoved(controller.mem.ram, controller.page, prp1, prp2, r.Delivered(size));
        return Aborted;
      }
      var direct := TakesSlice(size, prp1, prp2);
      if direct {
        var end := DirectRead(controller.mem.ram, prp1, size, r);
        ReadPathsAgree(controller.mem.ram, controller.page, prp1, prp2, size, r);
        controller.mem := controller.mem.(ram := end.ram);
        return end.o;
      }
      Scratch(size);
      if r.fails {
        return Completed(1);
      }
      controller.mem := controller.mem.(buf := r.Delivered(size));
      ghost var start := controller.mem;
      var ok := controller.Transfer(prp1, prp2, true);
      if !ok { StoppedKeepsBuf(start, controller.page, prp1, prp2, controller.mem); }
      o := if ok then Completed(0) else Aborted;
    }

    /**
      A write command. Whatever path it takes, what the backend stores comes from the command's pages in
      list order. A short count without an error shows on the zero-copy path alone.
     */
    method ExecuteWrite(offset: nat, size: nat, prp1: u64, prp2: u64, r: WriteReply) returns (o: Outcome)
      requires size > 0 && controller.mem.ram.Valid() && r.Fits(size)
      modifies controller`mem, this`backend
      ensures controller.mem.ram == old(controller.mem.ram)
      ensures var want := Source(old(controller.mem.ram), controller.page, prp1, prp2, size);
              if want.None? then o == Aborted && backend == old(backend)
              else
                && |want.value| == size && backend == Stored(old(backend), offset, want.value[..r.stored])
                && o == if slicer && OneStretch(old(controller.mem.ram), controller.page, prp1, prp2, size)
                        then if r.fails || r.n != size then Aborted else Completed(0)
                        else if r.fails then Completed(1) else Completed(0)
    {
      SourceIsReference(Mem(controller.mem.ram, Zeros(size)), controller.page, prp1, prp2);
      if slicer && prp1 == 0 {
        MissingPRP1(Mem(controller.mem.ram, Zeros(size)), controller.page, prp2, false);
        return Aborted;
      }
      var direct := TakesSlice(size, prp1, prp2);
      if direct {
        var data := controller.mem.ram.Peek(prp1, size);
        assert Splice(Zeros(size), 0, data) == data;
        ZeroCopyAgrees(Mem(controller.mem.ram, Zeros(size)), controller.page, prp1, prp2, false);
        backend := Stored(backend, offset, data[..r.stored]);
        return DirectWrite(size, r);
      }
      Scratch(size);
      SourceIsReference(controller.mem, controller.page, prp1, prp2);
      var ok := controller.Transfer(prp1, prp2, false);
      if !ok {
        return Aborted;
      }
      backend := Stored(backend, offset, controller.mem.buf[..r.stored]);
      o := ScatteredWrite(r);
    }
  }
}
