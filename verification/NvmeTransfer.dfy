/** The PRP walk, the coalescing transfer and the zero-copy path as the controller runs them. */
module NvmeTransfer {
  import opened Bytes
  import opened Common
  import opened NvmePrpSpec

  // ----- what a list walk still has to visit -----

  datatype Step = Done | Failed | Visit(addr: u64, chunk: nat)

  /** `ram` reads like `ram0` on the given list pages. */
  ghost predicate Agree(ram0: Ram, ram: Ram, page: PageSize, lists: seq<u64>) {
    ram0.base == ram.base && |ram0.bytes| == |ram.bytes| && ram0.slot == ram.slot &&
    forall l :: l in lists ==> SameAt(ram0, ram, l, page)
  }

  lemma {:induction false} AgreeSelf(ram: Ram, page: PageSize, lists: seq<u64>)
    ensures Agree(ram, ram, page, lists)
  {}

  /** One list page of a walk, as the loop takes it: `u` entries, then on to `next`. */
  lemma {:induction false} EntriesUnfold(ram: Ram, page: PageSize, list: u64, n: nat, slots: seq<u64>, u: nat,
                                         next: u64)
    requires n > 0 && list != 0 && ram.Mapped(list, page) && slots == Slots(ram, ram.Peek(list, page), PerList(page))
    requires if n > PerList(page) then u == PerList(page) - 1 && next == slots[u] else u == n
    ensures var rest := Entries(ram, page, next, n - u);
            Entries(ram, page, list, n) == Listing(slots[..u] + rest.items, rest.complete)
    ensures forall l :: l in Lists(ram, page, next, n - u) ==> l in Lists(ram, page, list, n)
  {
    assert slots[..u] == Slots(ram, ram.Peek(list, page), u);
  }

  lemma {:induction false} HeadTail(s: seq<u64>, rest: seq<u64>, all: seq<u64>, k: nat)
    requires s != [] && k <= |all| && s + rest == all[k..]
    ensures k < |all| && s[0] == all[k] && s[1..] + rest == all[k + 1..]
  {
    assert (s + rest)[0] == s[0] && (s + rest)[1..] == s[1..] + rest;
  }

  /**
    The loop variables of walkPRPListLocked between two callbacks. `entries` holds what is left of
    the list page in the scratch buffer, `beyond` counts the entries on later pages.
   */
  datatype Cursor = Cursor(listAddr: u64, remaining: nat, entries: seq<u64>, beyond: nat)

  /** A walk of `total` bytes' worth of pages, as the memory `ram0` that it starts in lays it out. */
  datatype Walk = Walk(page: PageSize, ram0: Ram, total: nat, all: Listing<u64>, lists: seq<u64>) {
    /** The cursor stands behind `k` entries of the walk. */
    ghost predicate At(c: Cursor, k: nat) {
      k <= |all.items| && c.remaining == Rest(total, page, k) &&
      Ahead(c, k, Entries(ram0, page, c.listAddr, c.beyond)) &&
      forall l :: l in Lists(ram0, page, c.listAddr, c.beyond) ==> l in lists
    }

    ghost predicate Ahead(c: Cursor, k: nat, rest: Listing<u64>)
      requires k <= |all.items|
    {
      c.entries + rest.items == all.items[k..] && rest.complete == all.complete
    }
  }

  ghost function WalkOf(page: PageSize, ram0: Ram, list: u64, total: nat): Walk {
    Walk(page, ram0, total, Entries(ram0, page, list, Count(total, page)), Lists(ram0, page, list, Count(total, page)))
  }

  ghost predicate Counted(c: Cursor, page: PageSize) { |c.entries| + c.beyond == Count(c.remaining, page) }

  /** The run lies in the buffer, and what is still to be walked lies behind it. */
  ghost predicate Placed(c: Cursor, page: PageSize, run: Piece, size: nat) {
    && Counted(c, page) && c.remaining <= size
    && run.off + run.len <= size && (run.len > 0 ==> run.off + run.len + c.remaining == size)
  }

  method StartWalk(page: PageSize, list: u64, total: nat, ghost ram0: Ram) returns (c: Cursor)
    ensures Counted(c, page) && c.remaining == total && WalkOf(page, ram0, list, total).At(c, 0)
  {
    CountIsCeiling(total, page);
    c := Cursor(list, total, [], (total + page - 1) / page);
  }

  /** Loads the next list page; the last slot of a full page becomes the next list address. */
  method Load(c: Cursor, page: PageSize, ram: Ram, ghost good: bool, ghost walk: Walk, ghost k: nat)
    returns (ok: bool, c': Cursor)
    requires Counted(c, page) && c.entries == [] && c.beyond > 0
    requires good ==> walk.page == page && walk.At(c, k) && Agree(walk.ram0, ram, page, walk.lists)
    ensures Counted(c', page) && c'.remaining == c.remaining && (ok ==> c'.entries != [])
    ensures good && ok ==> walk.At(c', k)
    ensures good && !ok ==> !walk.all.complete
  {
    if c.listAddr == 0 || !ram.Mapped(c.listAddr, page) {
      return false, c;
    }
    var entriesPerList := PerList(page);
    var slots := Slots(ram, ram.Peek(c.listAddr, page), entriesPerList);
    var usable, next := c.beyond, c.listAddr;
    if usable > entriesPerList {
      usable := entriesPerList - 1;
      next := slots[usable];
    }
    if good {
      assert c.listAddr in Lists(walk.ram0, page, c.listAddr, c.beyond);
      EntriesUnfold(walk.ram0, page, c.listAddr, c.beyond, slots, usable, next);
    }
    return true, Cursor(next, c.remaining, slots[..usable], c.beyond - usable);
  }

  /**
    The loop running up to its next callback, so that list pages are read exactly when the loop
    reads them. As long as the memory shown still has the list pages of the start, the callbacks
    get the entries of the walk one after another.
   */
  method Next(c: Cursor, page: PageSize, ram: Ram, ghost good: bool, ghost walk: Walk, ghost k: nat)
    returns (r: Step, c': Cursor)
    requires Counted(c, page)
    requires good ==> walk.page == page && walk.At(c, k) && Agree(walk.ram0, ram, page, walk.lists)
    ensures Counted(c', page)
    ensures r.Visit? ==> 0 < r.chunk == Min(page, c.remaining) && c'.remaining == c.remaining - r.chunk
    ensures good && r.Done? ==> walk.all.complete && k == |walk.all.items|
    ensures good && r.Failed? ==> !walk.all.complete
    ensures good && r.Visit? ==> k < |walk.all.items| && r.addr == walk.all.items[k] && walk.At(c', k + 1)
    ensures good && r.Visit? ==> c.remaining == Rest(walk.total, page, k)
  {
    c' := c;
    if c.entries == [] {
      if c.beyond == 0 {
        return Done, c;
      }
      var ok;
      ok, c' := Load(c, page, ram, good, walk, k);
      if !ok {
        return Failed, c';
      }
    }
    var chunk := page;
    if chunk > c.remaining {
      chunk := c.remaining;
    }
    if good { HeadTail(c'.entries, Entries(walk.ram0, page, c'.listAddr, c'.beyond).items, walk.all.items, k); }
    return Visit(c'.entries[0], chunk), c'.(entries := c'.entries[1..], remaining := c.remaining - chunk);
  }

  // ----- what a coalescing transfer has done so far -----

  /**
    `items[..f]` have reached memory `m`, and `items[f..k]` wait in `run` to be moved together.
   */
  ghost predicate Progress(m0: Mem, m: Mem, items: seq<Piece>, f: nat, k: nat, run: Piece, write: bool) {
    f <= k <= |items| && Move(m0, items[..f], write) == Some(m) &&
    (if run.len == 0 then f == k else Run(items[f..k], run))
  }

  lemma {:induction false} ProgressBegin(m0: Mem, m: Mem, items: seq<Piece>, f: nat, k: nat, run: Piece, write: bool)
    requires Progress(m0, m, items, f, k, run, write) && run.len == 0 && k < |items| && items[k].len > 0
    ensures Progress(m0, m, items, f, k + 1, items[k], write)
  {
    assert items[k..k + 1] == [items[k]];
  }

  lemma {:induction false} ProgressExtend(m0: Mem, m: Mem, items: seq<Piece>, f: nat, k: nat, run: Piece, write: bool)
    requires Progress(m0, m, items, f, k, run, write) && run.len > 0 && k < |items| && Follows(run, items[k])
    ensures Progress(m0, m, items, f, k + 1, run.(len := run.len + items[k].len), write)
  {
    var p, run' := items[k], run.(len := run.len + items[k].len);
    assert items[f..k + 1][..k - f] == items[f..k] && items[f..k + 1][k - f] == p;
    assert f < k;
    assert run'.(len := run'.len - p.len) == run;
  }

  /** Flushing the run brings memory to where one transfer per page would have it. */
  lemma {:induction false} ProgressFlush(m0: Mem, m: Mem, items: seq<Piece>, f: nat, k: nat, run: Piece, write: bool)
    requires Progress(m0, m, items, f, k, run, write) && m.ram.Valid()
    ensures Move(m0, items[..k], write) == if run.len == 0 then Some(m) else MoveOne(m, run, write)
  {
    if run.len > 0 {
      RunMove(m, items[f..k], run, write);
      assert items[..k] == items[..f] + items[f..k];
      MoveAppend(m0, items[..f], items[f..k], write);
    }
  }

  lemma {:induction false} MoveFailsEarly(m0: Mem, items: seq<Piece>, k: nat, write: bool)
    requires k <= |items| && Move(m0, items[..k], write).None?
    ensures Move(m0, items, write).None?
  {
    assert items == items[..k] + items[k..];
    MoveAppend(m0, items[..k], items[k..], write);
  }

  /** The k-th page of a list walk. */
  lemma {:induction false} PiecesAt(addrs: seq<u64>, total: nat, size: nat, page: PageSize, k: nat)
    requires total <= size && k < |addrs|
    ensures var left := Rest(total, page, k);
            Pieces(addrs, total, size, page)[k] == Piece(addrs[k], Min(page, left), size - left)
  {
    var n := |addrs| - 1;
    if k < n { PiecesAt(addrs[..n], total, size, page, k); }
  }

  lemma {:induction false} ReadKeepsRam(m: Mem, ps: seq<Piece>)
    ensures var r := Move(m, ps, false); r.Some? ==> r.value.ram == m.ram
  {
    if ps != [] { ReadKeepsRam(m, ps[..|ps| - 1]); }
  }

  lemma {:induction false} WriteKeepsBuf(m: Mem, ps: seq<Piece>)
    ensures var r := Move(m, ps, true); r.Some? ==> r.value.buf == m.buf
  {
    if ps != [] { WriteKeepsBuf(m, ps[..|ps| - 1]); }
  }

  lemma {:induction false} MoveKeepsShape(m: Mem, ps: seq<Piece>, write: bool)
    ensures var r := Move(m, ps, write);
            r.Some? ==> r.value.ram.base == m.ram.base && |r.value.ram.bytes| == |m.ram.bytes| &&
                        r.value.ram.slot == m.ram.slot &&
                        |r.value.buf| == |m.buf|
  {
    if ps != [] {
      MoveKeepsShape(m, ps[..|ps| - 1], write);
      var r := Move(m, ps[..|ps| - 1], write);
      if r.Some? { MoveOneKeepsShape(r.value, ps[|ps| - 1], write); }
    }
  }

  /** Memory reached by moving pages of the command still shows its list pages as they were. */
  lemma {:induction false} ListsKept(m0: Mem, page: PageSize, prp1: u64, prp2: u64, f: nat, write: bool)
    requires !write || ListsApart(m0.ram, page, prp1, prp2, |m0.buf|)
    requires |m0.buf| - FirstLen(page, prp1, |m0.buf|) > page
    requires f <= |Plan(m0.ram, page, prp1, prp2, |m0.buf|).items|
    requires Move(m0, Plan(m0.ram, page, prp1, prp2, |m0.buf|).items[..f], write).Some?
    ensures var n := Count(|m0.buf| - FirstLen(page, prp1, |m0.buf|), page);
            Agree(m0.ram, Move(m0, Plan(m0.ram, page, prp1, prp2, |m0.buf|).items[..f], write).value.ram, page,
                  Lists(m0.ram, page, prp2, n))
  {
    var items := Plan(m0.ram, page, prp1, prp2, |m0.buf|).items;
    var n := Count(|m0.buf| - FirstLen(page, prp1, |m0.buf|), page);
    MoveKeepsShape(m0, items[..f], write);
    forall l | l in Lists(m0.ram, page, prp2, n)
      ensures SameAt(m0.ram, Move(m0, items[..f], write).value.ram, l, page)
    {
      if write { MoveFrame(m0, items[..f], write, l, page); } else { ReadKeepsRam(m0, items[..f]); }
    }
  }

  /** A call succeeds exactly when the reference does, and then leaves the memory it leaves. */
  ghost predicate Achieves(ok: bool, m: Mem, want: Option<Mem>) {
    (ok <==> want.Some?) && (ok ==> want == Some(m))
  }

  datatype Standing = OnTrack | Astray

  /** Moving the first `f` pages leads to that memory. */
  ghost predicate MovedFirst(m0: Mem, items: seq<Piece>, write: bool, m: Mem, f: nat) {
    f <= |items| && Move(m0, items[..f], write) == Some(m)
  }

  ghost predicate StoppedIn(m0: Mem, items: seq<Piece>, write: bool, m: Mem) {
    exists f: nat :: MovedFirst(m0, items, write, m, f)
  }

  /** A command being carried out: the memory it started from and the pages it names. */
  datatype Job = Job(m0: Mem, items: seq<Piece>, write: bool) {
    ghost predicate Valid() { m0.ram.Valid() }

    ghost function Result(): Option<Mem> { Move(m0, items, write) }

    ghost predicate Reached(m: Mem, f: nat, k: nat, run: Piece) { Progress(m0, m, items, f, k, run, write) }

    /** The first pages of the command have been moved, and no others. */
    ghost predicate Stopped(m: Mem) { StoppedIn(m0, items, write, m) }

    /** The walk and the transfer go together: entry `k` of the list is page `k'` of the command. */
    ghost function Standing(walk: Walk, c: Cursor, k: nat, m: Mem, f: nat, k': nat, run: Piece): Standing {
      if walk.At(c, k) && Reached(m, f, k', run) then OnTrack else Astray
    }

    /** No memory reached on the way differs from the start on a list page. */
    ghost predicate KeepsLists(page: PageSize, lists: seq<u64>) {
      forall f {:trigger KeptAt(page, lists, f)} :: 0 <= f <= |items| ==> KeptAt(page, lists, f)
    }

    ghost predicate KeptAt(page: PageSize, lists: seq<u64>, f: nat)
      requires f <= |items|
    {
      var m := Move(m0, items[..f], write);
      m.Some? ==> Agree(m0.ram, m.value.ram, page, lists)
    }

    /** Page `k` is the one that the walk's entry before it names. */
    ghost predicate NamedAt(walk: Walk, page: PageSize, size: nat, k: nat)
      requires 1 <= k < |items| <= |walk.all.items| + 1 && walk.total <= size
    {
      items[k] == Pieces(walk.all.items, walk.total, size, page)[k - 1]
    }

    /** Behind the first page come the pages the walk visits. */
    ghost predicate Follows(walk: Walk, page: PageSize, size: nat) {
      walk.page == page && walk.ram0 == m0.ram && walk.total <= size && |items| == |walk.all.items| + 1 &&
      KeepsLists(page, walk.lists) &&
      forall k {:trigger NamedAt(walk, page, size, k)} :: 1 <= k < |items| ==> NamedAt(walk, page, size, k)
    }

    lemma {:induction false} Flush(m: Mem, f: nat, k: nat, run: Piece)
      requires Valid() && Reached(m, f, k, run)
      ensures Move(m0, items[..k], write) == if run.len == 0 then Some(m) else MoveOne(m, run, write)
      ensures |m.buf| == |m0.buf|
    {
      MoveKeepsShape(m0, items[..f], write);
      ProgressFlush(m0, m, items, f, k, run, write);
    }

    /** Entry k of the list is page k + 1 of the command. */
    lemma {:induction false} Visited(walk: Walk, page: PageSize, size: nat, k: nat, left: nat, p: Piece)
      requires Follows(walk, page, size) && k < |walk.all.items| && left == Rest(walk.total, page, k)
      requires p.addr == walk.all.items[k] && p.len == Min(page, left) && p.off + left == size
      ensures k + 1 < |items| && items[k + 1] == p
    {
      PiecesAt(walk.all.items, walk.total, size, page, k);
      assert NamedAt(walk, page, size, k + 1);
    }

    lemma {:induction false} Agreement(m: Mem, f: nat, k: nat, run: Piece, walk: Walk, page: PageSize)
      requires Reached(m, f, k, run) && KeepsLists(page, walk.lists)
      ensures Agree(m0.ram, m.ram, page, walk.lists)
    {
      assert Move(m0, items[..f], write).Some? && KeptAt(page, walk.lists, f);
    }
  }

  /** Every page lies at PRP1 plus its offset in the command. */
  predicate InOrder(ps: seq<Piece>, prp1: u64) {
    ps == [] || (InOrder(ps[..|ps| - 1], prp1) && ps[|ps| - 1].addr == Wrap64(prp1 + ps[|ps| - 1].off))
  }

  lemma {:induction false} OnePage(p: Piece)
    requires p.off == 0
    ensures [p] + [] == [p] && InOrder([p], p.addr)
  {
    assert [p][..0] == [];
  }

  lemma {:induction false} TwoPages(p: Piece, q: Piece)
    requires p.off == 0
    ensures InOrder([p] + [q], p.addr) <==> q.addr == Wrap64(p.addr + q.off)
  {
    OnePage(p);
    assert ([p] + [q])[..1] == [p];
  }

  /** The address that a contiguous list has in entry `k`. */
  function Expected(start: u64, page: PageSize, k: nat): u64 {
    if k == 0 then start else Wrap64(Expected(start, page, k - 1) + page)
  }

  predicate AddrsInOrder(addrs: seq<u64>, start: u64, page: PageSize) {
    addrs == [] ||
    (AddrsInOrder(addrs[..|addrs| - 1], start, page) && addrs[|addrs| - 1] == Expected(start, page, |addrs| - 1))
  }

  lemma {:induction false} AddrsInOrderPrefix(addrs: seq<u64>, start: u64, page: PageSize, k: nat)
    requires k <= |addrs| && AddrsInOrder(addrs, start, page)
    ensures AddrsInOrder(addrs[..k], start, page)
  {
    if k < |addrs| {
      var n := |addrs| - 1;
      AddrsInOrderPrefix(addrs[..n], start, page, k);
      assert addrs[..n][..k] == addrs[..k];
    } else {
      assert addrs[..k] == addrs;
    }
  }

  lemma {:induction false} AddrsInOrderNext(addrs: seq<u64>, start: u64, page: PageSize, k: nat)
    requires k < |addrs| && AddrsInOrder(addrs[..k], start, page)
    ensures AddrsInOrder(addrs[..k + 1], start, page) <==> addrs[k] == Expected(start, page, k)
    ensures AddrsInOrder(addrs, start, page) ==> addrs[k] == Expected(start, page, k)
    ensures Expected(start, page, k + 1) == Wrap64(Expected(start, page, k) + page)
  {
    assert addrs[..k + 1][..k] == addrs[..k];
    if AddrsInOrder(addrs, start, page) { AddrsInOrderPrefix(addrs, start, page, k + 1); }
  }

  /** A command with a PRP list: its first page, then the pages the list names. */
  lemma {:induction false} PlanOfList(ram: Ram, page: PageSize, prp1: u64, prp2: u64, size: nat, n: nat, rest: nat)
    requires n == FirstLen(page, prp1, size) && rest == size - n > page
    ensures var plan, addrs := Plan(ram, page, prp1, prp2, size), Entries(ram, page, prp2, Count(rest, page));
            plan == Listing([Piece(prp1, n, 0)] + Pieces(addrs.items, rest, size, page), addrs.complete)
  {}

  /** Entry `k` of a contiguous list lies as far behind PRP1 as its page does in the command. */
  lemma {:induction false} ExpectedIsOffset(prp1: u64, total: nat, size: nat, page: PageSize, k: nat, n: nat)
    requires n + total == size && k < Count(total, page)
    ensures Expected(Wrap64(prp1 + n), page, k) == Wrap64(prp1 + (size - Rest(total, page, k)))
  {
    if k == 0 {
      assert prp1 + n == prp1 + (size - total);
    } else {
      ExpectedIsOffset(prp1, total, size, page, k - 1, n);
      var left, left' := Rest(total, page, k - 1), Rest(total, page, k);
      RestReachesZero(total, page, k);
      assert left' == left - page;
      Wrap64Add(prp1 + (size - left), page);
      assert prp1 + (size - left) + page == prp1 + (size - left');
    }
  }

  lemma {:induction false} InOrderSnoc(ps: seq<Piece>, p: Piece, prp1: u64)
    ensures InOrder(ps + [p], prp1) <==> InOrder(ps, prp1) && p.addr == Wrap64(prp1 + p.off)
  {
    assert (ps + [p])[..|ps|] == ps;
  }

  lemma {:induction false} PiecesInOrder(addrs: seq<u64>, first: Piece, prp1: u64, total: nat, size: nat,
                                         page: PageSize, n: nat)
    requires n + total == size && first.addr == prp1 && first.off == 0 && |addrs| <= Count(total, page)
    ensures InOrder([first] + Pieces(addrs, total, size, page), prp1) <==> AddrsInOrder(addrs, Wrap64(prp1 + n), page)
  {
    if addrs == [] {
      OnePage(first);
    } else {
      var k := |addrs| - 1;
      var left := Rest(total, page, k);
      var ps := Pieces(addrs[..k], total, size, page);
      PiecesInOrder(addrs[..k], first, prp1, total, size, page, n);
      ExpectedIsOffset(prp1, total, size, page, k, n);
      InOrderSnoc([first] + ps, Piece(addrs[k], Min(page, left), size - left), prp1);
      AppendSnoc([first], ps, Piece(addrs[k], Min(page, left), size - left));
    }
  }

  lemma {:induction false} ListInOrder(ram: Ram, page: PageSize, prp1: u64, prp2: u64, size: nat, n: nat, rest: nat)
    requires n == FirstLen(page, prp1, size) && rest == size - n > page
    ensures var plan, addrs := Plan(ram, page, prp1, prp2, size), Entries(ram, page, prp2, Count(rest, page));
            plan.complete == addrs.complete &&
            (InOrder(plan.items, prp1) <==> AddrsInOrder(addrs.items, Wrap64(prp1 + n), page))
  {
    var addrs := Entries(ram, page, prp2, Count(rest, page));
    PlanOfList(ram, page, prp1, prp2, size, n, rest);
    PiecesInOrder(addrs.items, Piece(prp1, n, 0), prp1, rest, size, page, n);
  }

  lemma {:induction false} FirstOfPlan(m0: Mem, page: PageSize, prp1: u64, prp2: u64, write: bool)
    requires |m0.buf| > 0
    ensures var items := Plan(m0.ram, page, prp1, prp2, |m0.buf|).items;
            |items| >= 1 && Move(m0, items[..1], write) ==
                            MoveOne(m0, Piece(prp1, FirstLen(page, prp1, |m0.buf|), 0), write)
  {
    var items := Plan(m0.ram, page, prp1, prp2, |m0.buf|).items;
    assert items[..1][..0] == [];
  }

  lemma {:induction false} JobFollowsWalk(m0: Mem, page: PageSize, prp1: u64, prp2: u64, rest: nat, write: bool)
    requires |m0.buf| - FirstLen(page, prp1, |m0.buf|) == rest > page
    requires !write || ListsApart(m0.ram, page, prp1, prp2, |m0.buf|)
    ensures Job(m0, Plan(m0.ram, page, prp1, prp2, |m0.buf|).items, write).Follows(
              WalkOf(page, m0.ram, prp2, rest), page, |m0.buf|)
  {
    var job, walk := Job(m0, Plan(m0.ram, page, prp1, prp2, |m0.buf|).items, write), WalkOf(page, m0.ram, prp2, rest);
    forall f | 0 <= f <= |job.items| ensures job.KeptAt(page, walk.lists, f) {
      if Move(m0, job.items[..f], write).Some? { ListsKept(m0, page, prp1, prp2, f, write); }
    }
  }

  /** The controller's view of guest RAM, with the scratch buffer that commands move data through. */
  class Controller {
    const page: PageSize
    var mem: Mem

    constructor (page: PageSize, ram: Ram)
      ensures this.page == page && mem == Mem(ram, [])
    {
      this.page, mem := page, Mem(ram, []);
    }

    method TransferPage(addr: u64, off: nat, n: nat, write: bool) returns (ok: bool)
      requires off + n <= |mem.buf|
      modifies this`mem
      ensures !write ==> mem.ram == old(mem).ram
      ensures MoveOne(old(mem), Piece(addr, n, off), write) == if ok then Some(mem) else None
      ensures !ok ==> mem == old(mem)
    {
      if addr == 0 || !mem.ram.Mapped(addr, n) {
        return false;
      }
      if write {
        mem := mem.(ram := mem.ram.Poke(addr, mem.buf[off..off + n]));
      } else {
        mem := mem.(buf := Splice(mem.buf, off, mem.ram.Peek(addr, n)));
      }
      ok := true;
    }

    /** flushRun: moves the pages gathered in the run, if any. */
    method FlushRun(run: Piece, write: bool, ghost good: bool, ghost job: Job, ghost f: nat, ghost k: nat)
      returns (ok: bool)
      requires run.off + run.len <= |mem.buf|
      requires good ==> job.Valid() && job.write == write && job.Reached(mem, f, k, run)
      modifies this`mem
      ensures !write ==> mem.ram == old(mem).ram
      ensures |mem.buf| == |old(mem).buf| && (!ok ==> mem == old(mem))
      ensures good ==> Achieves(ok, mem, Move(job.m0, job.items[..k], write)) && (!ok ==> job.Stopped(mem))
    {
      if good {
        job.Flush(mem, f, k, run);
        assert MovedFirst(job.m0, job.items, write, mem, f);
      }
      if run.len == 0 {
        return true;
      }
      MoveOneKeepsShape(mem, run, write);
      ok := TransferPage(run.addr, run.off, run.len, write);
    }

    /** One callback of the list walk: join the page to the run, or flush the run and start anew. */
    method AddPage(run: Piece, p: Piece, write: bool, ghost good: bool, ghost job: Job, ghost f: nat, ghost k: nat)
      returns (ok: bool, run': Piece, ghost f': nat)
      requires p.len > 0 && p.off + p.len <= |mem.buf| && (run.len > 0 ==> run.off + run.len == p.off)
      requires good ==> job.Valid() && job.write == write && k < |job.items| && job.items[k] == p
      requires good ==> job.Reached(mem, f, k, run)
      modifies this`mem
      ensures !write ==> mem.ram == old(mem).ram
      ensures |mem.buf| == |old(mem).buf|
      ensures ok ==> run'.len > 0 && run'.off + run'.len == p.off + p.len
      ensures good && ok ==> job.Reached(mem, f', k + 1, run')
      ensures good && !ok ==> job.Result().None? && job.Stopped(mem)
    {
      run', f', ok := run, f, true;
      if run.len > 0 && p.addr != Wrap64(run.addr + run.len) {
        ok := FlushRun(run, write, good, job, f, k);
        if !ok {
          if good { MoveFailsEarly(job.m0, job.items, k, write); }
          return;
        }
        run', f' := run.(len := 0), k;
      }
      if run'.len == 0 {
        if good { ProgressBegin(job.m0, mem, job.items, f', k, run', write); }
        run' := p;
      } else {
        if good { ProgressExtend(job.m0, mem, job.items, f', k, run', write); }
        run' := run'.(len := run'.len + p.len);
      }
    }

    /** One turn of the list walk: fetch the next entry, if there is one, and add its page. */
    method WalkStep(c: Cursor, run: Piece, write: bool, ghost good: bool, ghost job: Job, ghost walk: Walk,
                    ghost f: nat, ghost k: nat, ghost k': nat)
      returns (step: Step, ok: bool, c': Cursor, run': Piece, ghost f': nat)
      requires k' == k + 1 && Placed(c, page, run, |mem.buf|)
      requires good ==> job.Valid() && job.write == write && job.Follows(walk, page, |mem.buf|)
      requires good ==> job.Standing(walk, c, k, mem, f, k', run) == OnTrack
      modifies this`mem
      ensures !write ==> mem.ram == old(mem).ram
      ensures |mem.buf| == |old(mem).buf|
      ensures !step.Visit? ==> mem == old(mem) && run' == run && f' == f
      ensures good && step.Done? ==> walk.all.complete && k == |walk.all.items|
      ensures good && step.Failed? ==> !walk.all.complete && job.Stopped(mem)
      ensures good && step.Visit? && !ok ==> job.Result().None? && job.Stopped(mem)
      ensures step.Visit? && ok ==> c'.remaining < c.remaining && Placed(c', page, run', |mem.buf|)
      ensures good && step.Visit? && ok ==> job.Standing(walk, c', k', mem, f', k' + 1, run') == OnTrack
    {
      ok, run', f' := true, run, f;
      if good {
        job.Agreement(mem, f, k', run, walk, page);
        assert MovedFirst(job.m0, job.items, write, mem, f);
      }
      step, c' := Next(c, page, mem.ram, good, walk, k);
      if step.Visit? {
        var p := Piece(step.addr, step.chunk, |mem.buf| - c.remaining);
        if good { job.Visited(walk, page, |mem.buf|, k, c.remaining, p); }
        ok, run', f' := AddPage(run, p, write, good, job, f, k');
      }
    }

    /** The list walk of transferPRP; pages may be left in the run. */
    method WalkAll(start: Cursor, write: bool, ghost good: bool, ghost job: Job, ghost walk: Walk)
      returns (ok: bool, run: Piece, ghost f: nat)
      requires Counted(start, page) && start.remaining <= |mem.buf|
      requires good ==> job.Valid() && job.write == write && job.Follows(walk, page, |mem.buf|)
      requires good ==> walk.At(start, 0) && job.Reached(mem, 1, 1, Piece(0, 0, 0))
      modifies this`mem
      ensures !write ==> mem.ram == old(mem).ram
      ensures run.off + run.len <= |mem.buf|
      ensures good && !ok ==> !(walk.all.complete && job.Result().Some?) && job.Stopped(mem)
      ensures good && ok ==> walk.all.complete && job.Reached(mem, f, |job.items|, run)
    {
      var c, size, step := start, |mem.buf|, Done;
      run, f := Piece(0, 0, 0), 1;
      ghost var k, k' := 0, 1;
      while true
        invariant !write ==> mem.ram == old(mem).ram
        invariant |mem.buf| == size && k' == k + 1 && Placed(c, page, run, size)
        invariant good ==> job.Standing(walk, c, k, mem, f, k', run) == OnTrack
        decreases c.remaining
      {
        step, ok, c, run, f := WalkStep(c, run, write, good, job, walk, f, k, k');
        if step.Done? {
          return true, run, f;
        }
        if step.Failed? || !ok {
          return false, Piece(0, 0, 0), f;
        }
        k, k' := k', k' + 1;
      }
    }

    /** The flush behind the last page. */
    method FlushLast(run: Piece, write: bool, ghost good: bool, ghost job: Job, ghost f: nat, ghost k: nat)
      returns (ok: bool)
      requires run.off + run.len <= |mem.buf|
      requires good ==> job.Valid() && job.write == write && job.Reached(mem, f, k, run) && k == |job.items|
      modifies this`mem
      ensures !write ==> mem.ram == old(mem).ram
      ensures good ==> Achieves(ok, mem, job.Result()) && (!ok ==> job.Stopped(mem))
    {
      ok := FlushRun(run, write, good, job, f, k);
      assert good ==> job.items[..k] == job.items;
    }

    /** The list walk and the final flush. */
    method TransferLoop(start: Cursor, write: bool, ghost good: bool, ghost job: Job, ghost walk: Walk)
      returns (ok: bool)
      requires Counted(start, page) && start.remaining <= |mem.buf|
      requires good ==> job.Valid() && job.write == write && job.Follows(walk, page, |mem.buf|)
      requires good ==> walk.At(start, 0) && job.Reached(mem, 1, 1, Piece(0, 0, 0))
      modifies this`mem
      ensures !write ==> mem.ram == old(mem).ram
      ensures good ==> (ok <==> walk.all.complete && job.Result().Some?)
      ensures good && ok ==> job.Result() == Some(mem)
      ensures good && !ok ==> job.Stopped(mem)
    {
      var run: Piece;
      ghost var f: nat;
      ok, run, f := WalkAll(start, write, good, job, walk);
      if ok {
        ok := FlushLast(run, write, good, job, f, |job.items|);
      }
    }

    /**
      transferPRP. The pages end up exactly as if each had been moved on its own in list order, and
      the call succeeds exactly when that does, provided that writing never touches a list page; when it
      fails, the first pages have been moved and no others.
     */
    method Transfer(prp1: u64, prp2: u64, write: bool) returns (ok: bool)
      requires mem.ram.Valid()
      modifies this`mem
      ensures !write ==> mem.ram == old(mem).ram
      ensures !write || ListsApart(old(mem).ram, page, prp1, prp2, |old(mem).buf|) ==>
                && Achieves(ok, mem, Reference(old(mem), page, prp1, prp2, write))
                && (!ok ==> StoppedIn(old(mem), Plan(old(mem).ram, page, prp1, prp2, |old(mem).buf|).items, write, mem))
    {
      var size := |mem.buf|;
      if size == 0 {
        return true;
      }
      ghost var m0 := mem;
      ghost var plan := Plan(mem.ram, page, prp1, prp2, size);
      InPageIsMod(prp1, page);
      var n := page - prp1 % page;
      if n > size {
        n := size;
      }
      FirstOfPlan(m0, page, prp1, prp2, write);
      MoveOneKeepsShape(mem, Piece(prp1, n, 0), write);
      ok := TransferPage(prp1, 0, n, write);
      if !ok {
        MoveFailsEarly(m0, plan.items, 1, write);
        assert MovedFirst(m0, plan.items, write, mem, 0);
        return;
      }
      assert MovedFirst(m0, plan.items, write, mem, 1);
      if n == size {
        assert plan.items[..1] == plan.items;
        return;
      }
      if size - n <= page {
        assert plan.items == plan.items[..1] + [Piece(prp2, size - n, n)];
        MoveSnoc(m0, plan.items[..1], Piece(prp2, size - n, n), write);
        ok := TransferPage(prp2, n, size - n, write);
        return;
      }
      ok := TransferList(prp1, prp2, n, write, m0);
    }

    /** The part of transferPRP behind the first page when PRP2 is a list. */
    method TransferList(prp1: u64, prp2: u64, n: nat, write: bool, ghost m0: Mem) returns (ok: bool)
      requires m0.ram.Valid() && |m0.buf| == |mem.buf| && n == FirstLen(page, prp1, |m0.buf|)
      requires |m0.buf| - n > page
      requires Move(m0, Plan(m0.ram, page, prp1, prp2, |m0.buf|).items[..1], write) == Some(mem)
      modifies this`mem
      ensures !write ==> mem.ram == old(mem).ram
      ensures !write || ListsApart(m0.ram, page, prp1, prp2, |m0.buf|) ==>
                && Achieves(ok, mem, Reference(m0, page, prp1, prp2, write))
                && (!ok ==> StoppedIn(m0, Plan(m0.ram, page, prp1, prp2, |m0.buf|).items, write, mem))
    {
      ghost var good := !write || ListsApart(m0.ram, page, prp1, prp2, |m0.buf|);
      var rest := |mem.buf| - n;
      ghost var job := Job(m0, Plan(m0.ram, page, prp1, prp2, |m0.buf|).items, write);
      ghost var walk := WalkOf(page, m0.ram, prp2, rest);
      PlanOfList(m0.ram, page, prp1, prp2, |m0.buf|, n, rest);
      if good { JobFollowsWalk(m0, page, prp1, prp2, rest, write); }
      var c := StartWalk(page, prp2, rest, m0.ram);
      ok := TransferLoop(c, write, good, job, walk);
    }

    /** prpIsContiguousLocked: the command's pages are one stretch of guest-physical addresses. */
    method Contiguous(prp1: u64, prp2: u64, size: nat) returns (ok: bool)
      requires size > 0
      ensures var plan := Plan(mem.ram, page, prp1, prp2, size);
              ok <==> plan.complete && InOrder(plan.items, prp1)
    {
      InPageIsMod(prp1, page);
      var first := page - prp1 % page;
      if first >= size {
        OnePage(Piece(prp1, size, 0));
        return true;
      }
      var remaining, expected := size - first, Wrap64(prp1 + first);
      if remaining <= page {
        TwoPages(Piece(prp1, first, 0), Piece(prp2, remaining, first));
        return prp2 == expected;
      }
      ok := ContiguousList(prp2, remaining, expected);
      ListInOrder(mem.ram, page, prp1, prp2, size, first, remaining);
    }

    /** The list walk of prpIsContiguousLocked. */
    method ContiguousList(prp2: u64, total: nat, start: u64) returns (ok: bool)
      ensures var addrs := Entries(mem.ram, page, prp2, Count(total, page));
              ok <==> addrs.complete && AddrsInOrder(addrs.items, start, page)
    {
      var ram := mem.ram;
      var expected := start;
      var c := StartWalk(page, prp2, total, ram);
      ghost var k, walk := 0, WalkOf(page, ram, prp2, total);
      ghost var addrs := walk.all.items;
      AgreeSelf(ram, page, walk.lists);
      while true
        invariant Counted(c, page) && walk.At(c, k)
        invariant k <= |addrs| && expected == Expected(start, page, k)
        invariant AddrsInOrder(addrs[..k], start, page)
        decreases c.remaining
      {
        var step;
        step, c := Next(c, page, ram, true, walk, k);
        if step.Done? {
          assert addrs[..k] == addrs;
          return true;
        }
        if step.Failed? {
          return false;
        }
        AddrsInOrderNext(addrs, start, page, k);
        if step.addr != expected {
          return false;
        }
        expected := Wrap64(expected + page);
        k := k + 1;
      }
    }
  }

  lemma {:induction false} TilesPositive(ps: seq<Piece>, to: nat)
    requires ps != [] && Tiles(ps, 0, to)
    ensures to > 0
  {}

  /** Pages in order that tile [from, to) are one run. */
  lemma {:induction false} InOrderIsRun(ps: seq<Piece>, prp1: u64, to: nat)
    requires ps != [] && Tiles(ps, 0, to) && InOrder(ps, prp1)
    ensures Run(ps, Piece(prp1, to, 0))
  {
    var n := |ps| - 1;
    if n == 0 {
      assert ps[..0] == [];
    } else {
      InOrderIsRun(ps[..n], prp1, ps[n].off);
      TilesPositive(ps[..n], ps[n].off);
    }
  }

  /**
    For a contiguous command, moving its pages one by one is one transfer at PRP1 over the whole
    length: the zero-copy access and the scattered one agree on memory, buffer and failure.
   */
  lemma {:induction false} ZeroCopyAgrees(m: Mem, page: PageSize, prp1: u64, prp2: u64, write: bool)
    requires m.ram.Valid() && |m.buf| > 0
    requires var plan := Plan(m.ram, page, prp1, prp2, |m.buf|); plan.complete && InOrder(plan.items, prp1)
    ensures Reference(m, page, prp1, prp2, write) == MoveOne(m, Piece(prp1, |m.buf|, 0), write)
  {
    var plan := Plan(m.ram, page, prp1, prp2, |m.buf|);
    PlanTiles(m.ram, page, prp1, prp2, |m.buf|);
    InOrderIsRun(plan.items, prp1, |m.buf|);
    RunMove(m, plan.items, Piece(prp1, |m.buf|, 0), write);
  }
}
