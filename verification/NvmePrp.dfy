/**
  Physical Region Pages of internal/nvme/controller.go: walking chained PRP lists, moving data
  page by page with adjacent pages merged, and the zero-copy path.
 */
module NvmePrpSpec {
  import opened Bytes
  import opened Common

  /** Controller.pageSz: 4096 shifted left by the MPS field. */
  type PageSize = n: nat | 4096 <= n witness 4096

  function Splice(s: seq<byte>, at: nat, part: seq<byte>): (r: seq<byte>)
    requires at + |part| <= |s|
    ensures |r| == |s|
  {
    s[..at] + part + s[at + |part|..]
  }

  /**
    Guest RAM, one block of guest-physical memory. `slot(list, i)` reads entry `i` of a list page;
    nothing below depends on the byte order, which is little-endian (LittleEndianSlot).
   */
  datatype Ram = Ram(base: u64, bytes: seq<byte>, slot: (seq<byte>, nat) -> u64) {
    /** Guest-physical addresses are 64-bit. */
    predicate Valid() { base + |bytes| <= TWO64 }

    predicate Mapped(addr: nat, n: nat) { base <= addr && addr + n <= base + |bytes| }

    function Peek(addr: nat, n: nat): (s: seq<byte>)
      requires Mapped(addr, n)
      ensures |s| == n
    {
      bytes[addr - base..addr - base + n]
    }

    function Poke(addr: nat, data: seq<byte>): (r: Ram)
      requires Mapped(addr, |data|)
      ensures r.base == base && |r.bytes| == |bytes| && r.slot == slot
    {
      this.(bytes := Splice(bytes, addr - base, data))
    }
  }

  // ----- PRP lists (section 4.3 of NVMe 1.4) -----

  /** The `n` bytes at `at` read as a little-endian number. */
  function FromLE(s: seq<byte>, at: nat, n: nat): nat
    requires at + n <= |s|
    decreases n
  {
    if n == 0 then 0 else s[at] as int + 256 * FromLE(s, at + 1, n - 1)
  }

  lemma {:induction false} FromLEBound(s: seq<byte>, at: nat, n: nat)
    requires at + n <= |s|
    ensures FromLE(s, at, n) < Pow256(n)
    decreases n
  {
    if n > 0 { FromLEBound(s, at + 1, n - 1); }
  }

  function LittleEndianSlot(list: seq<byte>, i: nat): u64 {
    if 8 * i + 8 > |list| then 0
    else
      FromLEBound(list, 8 * i, 8);
      WordRanges();
      FromLE(list, 8 * i, 8)
  }

  /** The first `n` entries of a list page. */
  function Slots(ram: Ram, list: seq<byte>, n: nat): (r: seq<u64>)
    ensures |r| == n
  {
    seq<u64>(n, i requires 0 <= i < n => ram.slot(list, i))
  }

  function PerList(page: PageSize): (e: nat)
    ensures e >= 2 && 8 * e <= page
  {
    page / 8
  }

  /** What a walk visits, and whether it got to the end. */
  datatype Listing<T> = Listing(items: seq<T>, complete: bool)

  /**
    The first `n` PRP entries of the list at `list`. A list page that does not hold all of the
    entries still needed uses its last slot to point at the next list page; an address that is
    zero or unmapped ends the walk there.
   */
  function Entries(ram: Ram, page: PageSize, list: u64, n: nat): (r: Listing<u64>)
    ensures |r.items| <= n && (r.complete ==> |r.items| == n)
    decreases n
  {
    if n == 0 then Listing([], true)
    else if list == 0 || !ram.Mapped(list, page) then Listing([], false)
    else
      var s := ram.Peek(list, page);
      var e := PerList(page);
      if n <= e then Listing(Slots(ram, s, n), true)
      else
        var rest := Entries(ram, page, ram.slot(s, e - 1), n - (e - 1));
        Listing(Slots(ram, s, e - 1) + rest.items, rest.complete)
  }

  /** The list pages that hold the first `n` entries. */
  function Lists(ram: Ram, page: PageSize, list: u64, n: nat): seq<u64>
    decreases n
  {
    if n == 0 || list == 0 || !ram.Mapped(list, page) then []
    else if n <= PerList(page) then [list]
    else [list] + Lists(ram, page, ram.slot(ram.Peek(list, page), PerList(page) - 1), n - (PerList(page) - 1))
  }

  /** The p-th page of the chain that starts at `list`, following last slots. */
  function ChainPage(ram: Ram, page: PageSize, list: u64, p: nat): Option<u64>
    decreases p
  {
    if list == 0 || !ram.Mapped(list, page) then None
    else if p == 0 then Some(list)
    else ChainPage(ram, page, ram.slot(ram.Peek(list, page), PerList(page) - 1), p - 1)
  }

  /** Each page of the chain is named by the last of the page / 8 slots of the page before it. */
  lemma {:induction false} ChainPageNext(ram: Ram, page: PageSize, list: u64, p: nat)
    ensures var l, next := ChainPage(ram, page, list, p), ChainPage(ram, page, list, p + 1);
            && (l.None? ==> next.None?)
            && (l.Some? ==>
                  && ram.Mapped(l.value, page)
                  && var x := ram.slot(ram.Peek(l.value, page), page / 8 - 1);
                     next == if x == 0 || !ram.Mapped(x, page) then None else Some(x))
    decreases p
  {
    if p > 0 && list != 0 && ram.Mapped(list, page) {
      ChainPageNext(ram, page, ram.slot(ram.Peek(list, page), PerList(page) - 1), p - 1);
    }
  }

  /** Entry k of n lies on this page of the chain: one slot of every page but the last is a pointer. */
  function PageOfEntry(k: nat, n: nat, e: nat): nat
    requires k < n && e >= 2
    decreases n
  {
    if n <= e || k < e - 1 then 0 else 1 + PageOfEntry(k - (e - 1), n - (e - 1), e)
  }

  /** ... and in this slot of that page. */
  function SlotOfEntry(k: nat, n: nat, e: nat): (i: nat)
    requires k < n && e >= 2
    ensures i < e
    decreases n
  {
    if n <= e || k < e - 1 then k else SlotOfEntry(k - (e - 1), n - (e - 1), e)
  }

  lemma {:induction false} DivStep(a: nat, d: nat)
    requires d > 0 && a >= d
    ensures a / d == (a - d) / d + 1
  {
    var q, r := (a - d) / d, (a - d) % d;
    assert (q + 1) * d == q * d + d;
    DivUnique(a, d, q + 1, r);
  }

  /** The chain page that the last of `n` entries lies on, when a page holds d + 1 slots. */
  function LastPage(n: nat, d: nat): nat
    requires d > 0
  {
    if n <= 1 then 0 else (n - 2) / d
  }

  lemma {:induction false} LastPageStep(n: nat, d: nat)
    requires d > 0 && n > 0
    ensures n <= d + 1 ==> LastPage(n, d) == 0
    ensures n > d + 1 ==> LastPage(n, d) == 1 + LastPage(n - d, d)
  {
    if n > d + 1 { DivStep(n - 2, d); } else if n >= 2 { DivUnique(n - 2, d, 0, n - 2); }
  }

  lemma {:induction false} PageOfEntryClosed(k: nat, n: nat, e: nat, d: nat)
    requires k < n && e >= 2 && d == e - 1
    ensures PageOfEntry(k, n, e) == Min(k / d, LastPage(n, d))
    decreases n
  {
    LastPageStep(n, d);
    if k < d {
      DivUnique(k, d, 0, k);
    } else {
      DivStep(k, d);
      if n > e { PageOfEntryClosed(k - d, n - d, e, d); }
    }
  }

  lemma {:induction false} SlotOfEntryClosed(k: nat, n: nat, e: nat)
    requires k < n && e >= 2
    ensures SlotOfEntry(k, n, e) == k - PageOfEntry(k, n, e) * (e - 1)
    decreases n
  {
    if n > e && k >= e - 1 {
      SlotOfEntryClosed(k - (e - 1), n - (e - 1), e);
      var p := PageOfEntry(k - (e - 1), n - (e - 1), e);
      assert (p + 1) * (e - 1) == p * (e - 1) + (e - 1);
    }
  }

  /**
    Where entry k of n lies, in closed form: pages of e - 1 entries each, except that the last page
    holds up to e.
   */
  lemma {:induction false} EntryPositionClosed(k: nat, n: nat, e: nat)
    requires k < n && e >= 2
    ensures PageOfEntry(k, n, e) == Min(k / (e - 1), LastPage(n, e - 1))
    ensures SlotOfEntry(k, n, e) == k - PageOfEntry(k, n, e) * (e - 1)
  {
    PageOfEntryClosed(k, n, e, e - 1);
    SlotOfEntryClosed(k, n, e);
  }

  /** The k-th entry found by walking is the slot that section 4.3 puts it in. */
  lemma {:induction false} EntryAt(ram: Ram, page: PageSize, list: u64, n: nat, k: nat)
    requires k < |Entries(ram, page, list, n).items|
    ensures var e := page / 8;
            var l := ChainPage(ram, page, list, PageOfEntry(k, n, e));
            l.Some? && ram.Mapped(l.value, page) &&
            Entries(ram, page, list, n).items[k] == ram.slot(ram.Peek(l.value, page), SlotOfEntry(k, n, e))
    decreases n
  {
    var e := PerList(page);
    if n > e && k >= e - 1 {
      EntryAt(ram, page, ram.slot(ram.Peek(list, page), e - 1), n - (e - 1), k - (e - 1));
    }
  }

  /** On a guest's little-endian memory that entry is the number in bytes 8j to 8j + 7 of its list page. */
  lemma {:induction false} EntryIsLittleEndian(ram: Ram, page: PageSize, list: u64, n: nat, k: nat)
    requires k < |Entries(ram, page, list, n).items| && ram.slot == LittleEndianSlot
    ensures var e := page / 8;
            var l, j := ChainPage(ram, page, list, PageOfEntry(k, n, e)), SlotOfEntry(k, n, e);
            l.Some? && ram.Mapped(l.value, page) && 8 * j + 8 <= page &&
            Entries(ram, page, list, n).items[k] == FromLE(ram.Peek(l.value, page), 8 * j, 8)
  {
    EntryAt(ram, page, list, n, k);
  }

  // ----- the pages of a command -----

  /** `len` bytes at guest address `addr`, matched with the host buffer from offset `off`. */
  datatype Piece = Piece(addr: u64, len: nat, off: nat)

  /** Bytes left of `total` after `k` pages. */
  function Rest(total: nat, page: PageSize, k: nat): (r: nat)
    ensures r <= total
  {
    if k == 0 then total else var r := Rest(total, page, k - 1); r - Min(page, r)
  }

  /** The pages at `addrs`, covering the last `total` bytes of a command of `size` bytes. */
  function Pieces(addrs: seq<u64>, total: nat, size: nat, page: PageSize): (ps: seq<Piece>)
    requires total <= size
    ensures |ps| == |addrs|
  {
    if addrs == [] then []
    else
      var k := |addrs| - 1;
      var left := Rest(total, page, k);
      Pieces(addrs[..k], total, size, page) + [Piece(addrs[k], Min(page, left), size - left)]
  }

  /** The number of pages that `total` bytes take. */
  function Count(total: nat, page: PageSize): nat {
    if total == 0 then 0 else 1 + Count(total - Min(page, total), page)
  }

  /** The controller computes it by dividing. */
  lemma {:induction false} CountIsCeiling(total: nat, page: PageSize)
    ensures (total + page - 1) / page == Count(total, page)
  {
    if total == 0 {
      DivUnique(page - 1, page, 0, page - 1);
    } else if total <= page {
      DivUnique(total + page - 1, page, 1, total - 1);
    } else {
      DivStep(total + page - 1, page);
      CountIsCeiling(total - page, page);
    }
  }

  /** An address's offset in its page. */
  function InPage(addr: nat, page: PageSize): (r: nat)
    ensures r < page
  {
    if addr < page then addr else InPage(addr - page, page)
  }

  /** The controller computes it by the remainder. */
  lemma {:induction false} InPageIsMod(addr: nat, page: PageSize)
    ensures addr % page == InPage(addr, page)
  {
    if addr < page {
      DivUnique(addr, page, 0, addr);
    } else {
      InPageIsMod(addr - page, page);
      DivStep(addr, page);
      assert ((addr - page) / page + 1) * page == (addr - page) / page * page + page;
    }
  }

  /** Every page of a command but the first: PRP2 is a page when that is enough, else a list. */
  function TailPlan(ram: Ram, page: PageSize, prp2: u64, rest: nat, size: nat): Listing<Piece>
    requires rest <= size
  {
    if rest == 0 then Listing([], true)
    else if rest <= page then Listing([Piece(prp2, rest, size - rest)], true)
    else
      var l := Entries(ram, page, prp2, Count(rest, page));
      Listing(Pieces(l.items, rest, size, page), l.complete)
  }

  function FirstLen(page: PageSize, prp1: u64, size: nat): (n: nat)
    ensures n <= size && (size > 0 ==> n > 0)
  {
    Min(page - InPage(prp1, page), size)
  }

  /** The pages a command names, in order. */
  function Plan(ram: Ram, page: PageSize, prp1: u64, prp2: u64, size: nat): Listing<Piece> {
    var n := FirstLen(page, prp1, size);
    var tail := TailPlan(ram, page, prp2, size - n, size);
    Listing([Piece(prp1, n, 0)] + tail.items, tail.complete)
  }

  // ----- the pages use up the command exactly -----

  /** Each piece starts in the buffer where the one before it ends: together they are [from, to). */
  predicate Tiles(ps: seq<Piece>, from: nat, to: nat) {
    if ps == [] then from == to
    else
      var p := ps[|ps| - 1];
      p.len > 0 && p.off + p.len == to && from <= p.off && Tiles(ps[..|ps| - 1], from, p.off)
  }

  lemma {:induction false} RestShift(total: nat, page: PageSize, k: nat)
    requires k > 0
    ensures Rest(total, page, k) == Rest(total - Min(page, total), page, k - 1)
  {
    if k > 1 { RestShift(total, page, k - 1); }
  }

  /** Before the last page there is something left, after it nothing. */
  lemma {:induction false} RestReachesZero(total: nat, page: PageSize, k: nat)
    requires k <= Count(total, page)
    ensures Rest(total, page, k) == 0 <==> k == Count(total, page)
    decreases k
  {
    if k > 0 {
      RestShift(total, page, k);
      RestReachesZero(total - Min(page, total), page, k - 1);
    }
  }

  lemma {:induction false} PiecesTile(addrs: seq<u64>, total: nat, size: nat, page: PageSize)
    requires total <= size && |addrs| <= Count(total, page)
    ensures Tiles(Pieces(addrs, total, size, page), size - total, size - Rest(total, page, |addrs|))
  {
    if addrs != [] {
      var k := |addrs| - 1;
      PiecesTile(addrs[..k], total, size, page);
      RestReachesZero(total, page, k);
      var ps := Pieces(addrs, total, size, page);
      assert ps[..k] == Pieces(addrs[..k], total, size, page);
    }
  }

  lemma {:induction false} TilesCons(p: Piece, ps: seq<Piece>, to: nat)
    requires p.len > 0 && Tiles(ps, p.off + p.len, to)
    ensures Tiles([p] + ps, p.off, to)
  {
    if ps == [] {
      assert [p] + ps == [p] && [p][..0] == [];
    } else {
      var n := |ps| - 1;
      TilesCons(p, ps[..n], ps[n].off);
      assert ([p] + ps)[..n + 1] == [p] + ps[..n];
    }
  }

  lemma {:induction false} TailTiles(ram: Ram, page: PageSize, prp2: u64, rest: nat, size: nat)
    requires rest <= size
    ensures var tail := TailPlan(ram, page, prp2, rest, size);
            tail.complete ==> Tiles(tail.items, size - rest, size)
  {
    if rest > page {
      var l := Entries(ram, page, prp2, Count(rest, page));
      PiecesTile(l.items, rest, size, page);
      RestReachesZero(rest, page, Count(rest, page));
    } else if rest > 0 {
      assert [Piece(prp2, rest, size - rest)][..0] == [];
    }
  }

  /** The pages of a completed walk cover the command's bytes, each once, in order. */
  lemma {:induction false} PlanTiles(ram: Ram, page: PageSize, prp1: u64, prp2: u64, size: nat)
    requires size > 0 && Plan(ram, page, prp1, prp2, size).complete
    ensures Tiles(Plan(ram, page, prp1, prp2, size).items, 0, size)
  {
    var n := FirstLen(page, prp1, size);
    TailTiles(ram, page, prp2, size - n, size);
    TilesCons(Piece(prp1, n, 0), TailPlan(ram, page, prp2, size - n, size).items, size);
  }

  // ----- moving data -----

  /** Guest RAM and the host buffer that data moves between. */
  datatype Mem = Mem(ram: Ram, buf: seq<byte>)

  /** One transfer: into guest RAM when `write`, else into the buffer. */
  function MoveOne(m: Mem, p: Piece, write: bool): Option<Mem> {
    if p.addr == 0 || !m.ram.Mapped(p.addr, p.len) || p.off + p.len > |m.buf| then None
    else if write then Some(Mem(m.ram.Poke(p.addr, m.buf[p.off..p.off + p.len]), m.buf))
    else Some(Mem(m.ram, Splice(m.buf, p.off, m.ram.Peek(p.addr, p.len))))
  }

  /** One transfer per page, in order. */
  function Move(m: Mem, ps: seq<Piece>, write: bool): Option<Mem> {
    if ps == [] then Some(m)
    else
      var r := Move(m, ps[..|ps| - 1], write);
      if r.None? then None else MoveOne(r.value, ps[|ps| - 1], write)
  }

  /**
    The reference for a whole command: every page of the plan, one transfer each, in order;
    None when a page cannot be moved or the list walk breaks off.
   */
  function Reference(m: Mem, page: PageSize, prp1: u64, prp2: u64, write: bool): (r: Option<Mem>) {
    var plan := Plan(m.ram, page, prp1, prp2, |m.buf|);
    if |m.buf| == 0 then Some(m) else if !plan.complete then None else Move(m, plan.items, write)
  }

  // ----- one transfer over adjacent pages equals one per page -----

  /** `p` continues `w` in the buffer and in the 64-bit address space. */
  predicate Follows(w: Piece, p: Piece) {
    p.len > 0 && p.off == w.off + w.len && p.addr == Wrap64(w.addr + w.len)
  }

  /** The pages `ps` are the pieces of the larger transfer `w`. */
  predicate Run(ps: seq<Piece>, w: Piece) {
    if ps == [] then false
    else if |ps| == 1 then ps[0] == w && w.len > 0
    else
      var p := ps[|ps| - 1];
      0 < p.len < w.len && Run(ps[..|ps| - 1], w.(len := w.len - p.len)) && Follows(w.(len := w.len - p.len), p)
  }

  lemma {:induction false} SpliceJoin(s: seq<byte>, at: nat, x: seq<byte>, y: seq<byte>)
    requires at + |x| + |y| <= |s|
    ensures Splice(Splice(s, at, x), at + |x|, y) == Splice(s, at, x + y)
  {}

  lemma {:induction false} MoveOneJoin(m: Mem, w: Piece, p: Piece, write: bool)
    requires w.addr != 0 && p.addr == w.addr + w.len && p.off == w.off + w.len
    requires m.ram.Mapped(w.addr, w.len + p.len) && w.off + w.len + p.len <= |m.buf|
    ensures var r := MoveOne(m, w, write);
            r.Some? && MoveOne(r.value, p, write) == MoveOne(m, w.(len := w.len + p.len), write)
  {
    var x, y := w.len, p.len;
    if write {
      SpliceJoin(m.ram.bytes, w.addr - m.ram.base, m.buf[w.off..w.off + x], m.buf[p.off..p.off + y]);
      assert m.buf[w.off..w.off + x] + m.buf[p.off..p.off + y] == m.buf[w.off..w.off + (x + y)];
    } else {
      SpliceJoin(m.buf, w.off, m.ram.Peek(w.addr, x), m.ram.Peek(p.addr, y));
      assert m.ram.Peek(w.addr, x) + m.ram.Peek(p.addr, y) == m.ram.Peek(w.addr, x + y);
    }
  }

  lemma {:induction false} MoveOneKeepsShape(m: Mem, p: Piece, write: bool)
    ensures var r := MoveOne(m, p, write);
            r.Some? ==> r.value.ram.base == m.ram.base && |r.value.ram.bytes| == |m.ram.bytes| &&
                        r.value.ram.slot == m.ram.slot &&
                        |r.value.buf| == |m.buf|
  {}

  /** Extending a transfer by the page that follows it, failures included. */
  lemma {:induction false} MoveOneExtend(m: Mem, w: Piece, p: Piece, write: bool)
    requires m.ram.Valid() && Follows(w, p)
    ensures var r := MoveOne(m, w, write);
            MoveOne(m, w.(len := w.len + p.len), write) == if r.None? then None else MoveOne(r.value, p, write)
  {
    MoveOneKeepsShape(m, w, write);
    if w.addr != 0 && m.ram.Mapped(w.addr, w.len) {
      if w.addr + w.len < TWO64 {
        assert p.addr == w.addr + w.len;
        if m.ram.Mapped(w.addr, w.len + p.len) && w.off + w.len + p.len <= |m.buf| { MoveOneJoin(m, w, p, write); }
      } else {
        assert p.addr == 0;
      }
    }
  }

  /** Moving the pages of a run one by one is moving the run at once, failures included. */
  lemma {:induction false} RunMove(m: Mem, ps: seq<Piece>, w: Piece, write: bool)
    requires Run(ps, w) && m.ram.Valid()
    ensures Move(m, ps, write) == MoveOne(m, w, write)
  {
    if |ps| == 1 {
      assert ps[..0] == [];
    } else {
      var p := ps[|ps| - 1];
      var w' := w.(len := w.len - p.len);
      RunMove(m, ps[..|ps| - 1], w', write);
      MoveOneExtend(m, w', p, write);
      assert w'.(len := w'.len + p.len) == w;
    }
  }

  lemma {:induction false} MoveSnoc(m: Mem, ps: seq<Piece>, p: Piece, write: bool)
    ensures var r := Move(m, ps, write);
            Move(m, ps + [p], write) == if r.None? then None else MoveOne(r.value, p, write)
  {
    assert (ps + [p])[..|ps|] == ps;
  }

  lemma {:induction false} SplitLast<T>(s: seq<T>)
    requires s != []
    ensures s[..|s| - 1] + [s[|s| - 1]] == s
  {}

  lemma {:induction false} AppendSnoc<T>(xs: seq<T>, ys: seq<T>, y: T)
    ensures xs + (ys + [y]) == xs + ys + [y]
  {}

  /** Moving two groups of pages in a row is moving the first, then the second. */
  lemma {:induction false} MoveAppend(m: Mem, xs: seq<Piece>, ys: seq<Piece>, write: bool)
    ensures var r := Move(m, xs, write);
            Move(m, xs + ys, write) == if r.None? then None else Move(r.value, ys, write)
    decreases |ys|
  {
    if ys == [] {
      assert xs + ys == xs;
    } else {
      var front, p := ys[..|ys| - 1], ys[|ys| - 1];
      SplitLast(ys);
      AppendSnoc(xs, front, p);
      MoveAppend(m, xs, front, write);
      MoveSnoc(m, xs + front, p, write);
    }
  }

  // ----- list pages that no transfer touches stay as they were -----

  predicate Apart(list: u64, page: PageSize, p: Piece) {
    list + page <= p.addr || p.addr + p.len <= list
  }

  /** No page of the command overlaps one of its list pages. */
  ghost predicate ListsApart(ram: Ram, page: PageSize, prp1: u64, prp2: u64, size: nat) {
    var rest := size - FirstLen(page, prp1, size);
    rest > page ==>
      forall l, p :: l in Lists(ram, page, prp2, Count(rest, page)) && p in Plan(ram, page, prp1, prp2, size).items ==>
        Apart(l, page, p)
  }

  ghost predicate SameAt(ram: Ram, ram': Ram, list: u64, page: PageSize) {
    ram.base == ram'.base && |ram.bytes| == |ram'.bytes| && ram.slot == ram'.slot &&
    (ram.Mapped(list, page) ==> ram.Peek(list, page) == ram'.Peek(list, page))
  }

  lemma {:induction false} MoveOneFrame(m: Mem, p: Piece, write: bool, list: u64, page: PageSize)
    requires Apart(list, page, p) && MoveOne(m, p, write).Some?
    ensures SameAt(m.ram, MoveOne(m, p, write).value.ram, list, page)
  {}

  lemma {:induction false} MoveFrame(m: Mem, ps: seq<Piece>, write: bool, list: u64, page: PageSize)
    requires Move(m, ps, write).Some?
    requires forall p :: p in ps ==> Apart(list, page, p)
    ensures SameAt(m.ram, Move(m, ps, write).value.ram, list, page)
  {
    if ps != [] {
      var front := ps[..|ps| - 1];
      MoveFrame(m, front, write, list, page);
      MoveOneFrame(Move(m, front, write).value, ps[|ps| - 1], write, list, page);
    }
  }

  lemma {:induction false} EntriesFrame(ram: Ram, ram': Ram, page: PageSize, list: u64, n: nat)
    requires ram.base == ram'.base && |ram.bytes| == |ram'.bytes| && ram.slot == ram'.slot
    requires forall l :: l in Lists(ram, page, list, n) ==> SameAt(ram, ram', l, page)
    ensures Entries(ram', page, list, n) == Entries(ram, page, list, n)
    decreases n
  {
    if n > 0 && list != 0 && ram.Mapped(list, page) {
      assert list in Lists(ram, page, list, n);
      var e := PerList(page);
      if n > e { EntriesFrame(ram, ram', page, ram.slot(ram.Peek(list, page), e - 1), n - (e - 1)); }
    }
  }
}
