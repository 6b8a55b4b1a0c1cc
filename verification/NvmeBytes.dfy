/**
  What a command does to each byte. The address of byte i is computed from PRP1, PRP2 and the list with
  quotients and remainders, without the plan that the transfer is proved against.
 */
module NvmeBytes {
  import opened Bytes
  import opened Common
  import opened NvmePrpSpec
  import opened NvmeTransfer

  /** The list entries of a command whose rest, behind the first page, takes more than one page. */
  function ListOf(ram: Ram, page: PageSize, prp1: u64, prp2: u64, size: nat): Listing<u64>
    requires prp1 % page + size > 2 * page
  {
    Entries(ram, page, prp2, (prp1 % page + size - page + page - 1) / page)
  }

  /**
    Where byte `i` of a command lies: in the page of PRP1 up to its end; then in PRP2 if one page is enough
    for the rest; else in the page that the list names for it. None if the list breaks off before.
   */
  function ByteAddress(ram: Ram, page: PageSize, prp1: u64, prp2: u64, size: nat, i: nat): Option<nat>
    requires i < size
  {
    var at := prp1 % page + i;
    if at < page then Some(prp1 + i)
    else if prp1 % page + size <= 2 * page then Some(prp2 + at % page)
    else
      var l, j := ListOf(ram, page, prp1, prp2, size).items, at / page - 1;
      if j >= |l| then None else Some(l[j] + at % page)
  }

  function ByteAt(ram: Ram, x: nat): byte
    requires ram.Mapped(x, 1)
  {
    ram.bytes[x - ram.base]
  }

  /** The piece holds byte `i` of the command, at address `x`. */
  predicate HoldsByte(p: Piece, i: nat, x: int) { p.off <= i < p.off + p.len && p.addr + (i - p.off) == x }

  lemma {:induction false} RestLinear(total: nat, page: PageSize, k: nat)
    requires k * page <= total
    ensures Rest(total, page, k) == total - k * page
  {
    if k > 0 {
      assert k * page == (k - 1) * page + page;
      RestLinear(total, page, k - 1);
    }
  }

  /** Byte `i` is the first of the command or of a page. */
  predicate StartsPage(page: PageSize, prp1: u64, i: nat) { i == 0 || (prp1 % page + i) % page == 0 }

  lemma {:induction false} InCount(rest: nat, page: PageSize, j: nat)
    ensures j < Count(rest, page) <==> j * page < rest
  {
    if j > 0 {
      assert j * page == (j - 1) * page + page;
      assert (j - 1) * page >= 0;
      if rest > page { InCount(rest - page, page, j - 1); }
    }
  }

  /** Page `j` of a list, as the transfer has it. */
  lemma {:induction false} ListPiece(addrs: seq<u64>, rest: nat, size: nat, page: PageSize, j: nat, off: nat)
    requires rest <= size && j < |addrs| && j * page < rest && off == size - rest + j * page
    ensures Pieces(addrs, rest, size, page)[j] == Piece(addrs[j], Min(page, size - off), off)
  {
    PiecesAt(addrs, rest, size, page, j);
    RestLinear(rest, page, j);
  }

  lemma {:induction false} FirstPageEnds(page: PageSize, prp1: u64, size: nat, i: nat)
    requires i < size
    ensures prp1 % page + i < page <==> i < FirstLen(page, prp1, size)
    ensures prp1 % page + i >= page ==> FirstLen(page, prp1, size) == page - prp1 % page
  {
    InPageIsMod(prp1, page);
  }

  /** Byte `d` behind a first page that starts at offset `o` is byte `r` of page `j` behind it. */
  lemma {:induction false} SplitBehind(page: PageSize, o: nat, i: nat, d: nat) returns (j: nat, r: nat)
    requires o + i == page + d
    ensures d == j * page + r && r < page && (o + i) / page == j + 1 && (o + i) % page == r
  {
    j, r := d / page, d % page;
    assert (j + 1) * page == j * page + page;
    DivUnique(o + i, page, j + 1, r);
  }

  /** The address of byte `r` of page `j` behind the first page: in PRP2, or in the page that the list names. */
  function Behind(ram: Ram, page: PageSize, prp2: u64, rest: nat, j: nat, r: nat): Option<nat> {
    if rest <= page then Some(prp2 + r)
    else
      var l := Entries(ram, page, prp2, Count(rest, page)).items;
      if j < |l| then Some(l[j] + r) else None
  }

  lemma {:induction false} AddressBehind(ram: Ram, page: PageSize, prp1: u64, prp2: u64, size: nat, i: nat, rest: nat,
                                         j: nat, r: nat)
    requires i < size && prp1 % page + i >= page && rest == prp1 % page + size - page
    requires (prp1 % page + i) / page == j + 1 && (prp1 % page + i) % page == r
    ensures ByteAddress(ram, page, prp1, prp2, size, i) == Behind(ram, page, prp2, rest, j, r)
  {
    CountIsCeiling(rest, page);
  }

  /** A rest that fits one page lies in PRP2. */
  lemma {:induction false} PieceBehind(ram: Ram, page: PageSize, prp1: u64, prp2: u64, size: nat, n: nat, rest: nat)
    requires n == FirstLen(page, prp1, size) && rest == size - n && 0 < rest <= page
    ensures Plan(ram, page, prp1, prp2, size).items == [Piece(prp1, n, 0), Piece(prp2, rest, n)]
  {}

  /** A longer one lies in the pages of the list. */
  lemma {:induction false} PieceInList(ram: Ram, page: PageSize, prp1: u64, prp2: u64, size: nat, n: nat, rest: nat,
                                       j: nat, off: nat)
    requires n == FirstLen(page, prp1, size) && rest == size - n > page && off == n + j * page < size
    requires Plan(ram, page, prp1, prp2, size).complete
    ensures var items, l := Plan(ram, page, prp1, prp2, size).items, Entries(ram, page, prp2, Count(rest, page)).items;
            j < |l| && j + 1 < |items| && items[j + 1] == Piece(l[j], Min(page, size - off), off)
  {
    PlanOfList(ram, page, prp1, prp2, size, n, rest);
    InCount(rest, page, j);
    ListPiece(Entries(ram, page, prp2, Count(rest, page)).items, rest, size, page, j, off);
  }

  lemma {:induction false} QuotientZero(j: nat, page: PageSize, r: nat)
    requires j * page + r < page
    ensures j == 0
  {
    if j > 0 { ProductAtLeast(j, page); }
  }

  /** The piece behind the first page that holds byte `off + r`: PRP2, or page `j` of the list. */
  lemma {:induction false} ByteBehind(ram: Ram, page: PageSize, prp1: u64, prp2: u64, size: nat, n: nat, rest: nat,
                                      j: nat, off: nat, r: nat)
    requires n == FirstLen(page, prp1, size) && rest == size - n && off == n + j * page && off + r < size
    requires r < page && Plan(ram, page, prp1, prp2, size).complete
    ensures var items, x := Plan(ram, page, prp1, prp2, size).items, Behind(ram, page, prp2, rest, j, r);
            && x.Some? && j + 1 < |items| && items[j + 1].off == off && r < items[j + 1].len
            && x.value == items[j + 1].addr + r
  {
    if rest <= page {
      PieceBehind(ram, page, prp1, prp2, size, n, rest);
      QuotientZero(j, page, r);
    } else {
      PieceInList(ram, page, prp1, prp2, size, n, rest, j, off);
    }
  }

  /** Every byte of a command is held by the piece of its plan that the quotients and remainders say. */
  lemma {:induction false} PlanByte(ram: Ram, page: PageSize, prp1: u64, prp2: u64, size: nat, i: nat) returns (k: nat)
    requires i < size && Plan(ram, page, prp1, prp2, size).complete
    ensures var items, x := Plan(ram, page, prp1, prp2, size).items, ByteAddress(ram, page, prp1, prp2, size, i);
            && x.Some? && k < |items| && HoldsByte(items[k], i, x.value)
            && (StartsPage(page, prp1, i) ==> items[k].off == i)
  {
    FirstPageEnds(page, prp1, size, i);
    var o, n := prp1 % page, FirstLen(page, prp1, size);
    if o + i < page {
      k := 0;
      DivUnique(o + i, page, 0, o + i);
    } else {
      var j, r := SplitBehind(page, o, i, i - n);
      AddressBehind(ram, page, prp1, prp2, size, i, size - n, j, r);
      ByteBehind(ram, page, prp1, prp2, size, n, size - n, j, i - r, r);
      k := j + 1;
    }
  }

  // ----- pieces that tile a command -----

  lemma {:induction false} TilePlace(ps: seq<Piece>, from: nat, to: nat, k: nat)
    requires Tiles(ps, from, to) && k < |ps|
    ensures from <= ps[k].off && ps[k].off + ps[k].len <= to && ps[k].len > 0
    ensures k + 1 < |ps| ==> ps[k].off + ps[k].len <= ps[|ps| - 1].off
  {
    var n := |ps| - 1;
    if k < n {
      TilePlace(ps[..n], from, ps[n].off, k);
      assert ps[..n][k] == ps[k];
    }
  }

  lemma {:induction false} TileOrder(ps: seq<Piece>, from: nat, to: nat, j: nat, k: nat)
    requires Tiles(ps, from, to) && j < k < |ps|
    ensures ps[j].off + ps[j].len <= ps[k].off
  {
    var n := |ps| - 1;
    if k < n {
      TileOrder(ps[..n], from, ps[n].off, j, k);
      assert ps[..n][j] == ps[j] && ps[..n][k] == ps[k];
    } else {
      TilePlace(ps, from, to, j);
    }
  }

  // ----- what moving the pieces does to a byte -----

  lemma {:induction false} ReadOneByte(m: Mem, p: Piece, i: nat)
    requires MoveOne(m, p, false).Some? && i < |m.buf|
    ensures var r := MoveOne(m, p, false).value;
            && r.ram == m.ram && |r.buf| == |m.buf| && m.ram.Mapped(p.addr, p.len)
            && r.buf[i] == if p.off <= i < p.off + p.len then ByteAt(m.ram, p.addr + (i - p.off))
                         else m.buf[i]
  {}

  /** Reading guest memory puts into each byte of the buffer what lies at the byte's address. */
  lemma {:induction false} MoveReadByte(m: Mem, ps: seq<Piece>, to: nat, k: nat, p: Piece, i: nat)
    requires Tiles(ps, 0, to) && to <= |m.buf| && k < |ps| && p == ps[k] && p.off <= i < p.off + p.len
    requires Move(m, ps, false).Some? && i < |m.buf|
    ensures |Move(m, ps, false).value.buf| == |m.buf| && m.ram.Mapped(p.addr, p.len)
    ensures Move(m, ps, false).value.buf[i] == ByteAt(m.ram, p.addr + (i - p.off))
  {
    var n := |ps| - 1;
    var front, last := ps[..n], ps[n];
    var was := Move(m, front, false).value;
    ReadKeepsRam(m, front);
    TilePlace(ps, 0, to, k);
    if k < n {
      MoveReadByte(m, front, last.off, k, p, i);
    } else {
      MoveKeepsShape(m, front, false);
    }
    ReadOneByte(was, last, i);
  }

  predicate CoversByte(p: Piece, x: int) { p.addr <= x < p.addr + p.len }

  ghost predicate LastCover(ps: seq<Piece>, k: nat, x: int) {
    && k < |ps| && CoversByte(ps[k], x)
    && forall j {:trigger CoversByte(ps[j], x)} :: k < j < |ps| ==> !CoversByte(ps[j], x)
  }

  ghost predicate NoCover(ps: seq<Piece>, x: int) {
    forall j {:trigger CoversByte(ps[j], x)} :: 0 <= j < |ps| ==> !CoversByte(ps[j], x)
  }

  lemma {:induction false} WriteOneByte(m: Mem, p: Piece, x: nat)
    requires MoveOne(m, p, true).Some? && m.ram.Mapped(x, 1)
    ensures var r := MoveOne(m, p, true).value;
            && r.ram.base == m.ram.base && |r.ram.bytes| == |m.ram.bytes| && p.off + p.len <= |m.buf|
            && ByteAt(r.ram, x) ==
               if CoversByte(p, x) then m.buf[p.off + (x - p.addr)] else ByteAt(m.ram, x)
  {}

  /** Writing guest memory leaves a byte that no piece covers. */
  lemma {:induction false} MoveSparesByte(m: Mem, ps: seq<Piece>, x: nat)
    requires Move(m, ps, true).Some? && m.ram.Mapped(x, 1) && NoCover(ps, x)
    ensures var r := Move(m, ps, true).value;
            && r.ram.base == m.ram.base && |r.ram.bytes| == |m.ram.bytes|
            && ByteAt(r.ram, x) == ByteAt(m.ram, x)
  {
    if ps != [] {
      var n := |ps| - 1;
      forall j | 0 <= j < n ensures !CoversByte(ps[..n][j], x) { assert !CoversByte(ps[j], x); }
      MoveSparesByte(m, ps[..n], x);
      assert !CoversByte(ps[n], x);
      WriteOneByte(Move(m, ps[..n], true).value, ps[n], x);
    }
  }

  /** ... and gives another byte what the last piece that covers it has for it. */
  lemma {:induction false} MoveWriteByte(m: Mem, ps: seq<Piece>, k: nat, x: nat)
    requires Move(m, ps, true).Some? && m.ram.Mapped(x, 1) && LastCover(ps, k, x)
    ensures var r := Move(m, ps, true).value;
            && r.ram.base == m.ram.base && |r.ram.bytes| == |m.ram.bytes| && ps[k].off + ps[k].len <= |m.buf|
            && ByteAt(r.ram, x) == m.buf[ps[k].off + (x - ps[k].addr)]
  {
    var n := |ps| - 1;
    var front := ps[..n];
    WriteKeepsBuf(m, front);
    MoveKeepsShape(m, front, true);
    WriteOneByte(Move(m, front, true).value, ps[n], x);
    if k < n {
      assert front[k] == ps[k] && !CoversByte(ps[n], x);
      forall j | k < j < n ensures !CoversByte(front[j], x) { assert !CoversByte(ps[j], x); }
      MoveWriteByte(m, front, k, x);
    }
  }

  // ----- what a command does to a byte -----

  /** Byte `i` of the command lies at address `x`. */
  predicate LiesAt(ram: Ram, page: PageSize, prp1: u64, prp2: u64, size: nat, i: nat, x: nat) {
    i < size && ByteAddress(ram, page, prp1, prp2, size, i) == Some(x)
  }

  /** A piece of the plan holds its bytes where the quotients and remainders say. */
  lemma {:induction false} PieceByte(ram: Ram, page: PageSize, prp1: u64, prp2: u64, size: nat, k: nat, i: nat)
    requires size > 0 && Plan(ram, page, prp1, prp2, size).complete && k < |Plan(ram, page, prp1, prp2, size).items|
    requires var p := Plan(ram, page, prp1, prp2, size).items[k]; p.off <= i < p.off + p.len
    ensures var p := Plan(ram, page, prp1, prp2, size).items[k];
            LiesAt(ram, page, prp1, prp2, size, i, p.addr + (i - p.off))
  {
    var items := Plan(ram, page, prp1, prp2, size).items;
    PlanTiles(ram, page, prp1, prp2, size);
    TilePlace(items, 0, size, k);
    var j := PlanByte(ram, page, prp1, prp2, size, i);
    if j < k { TileOrder(items, 0, size, j, k); } else if k < j { TileOrder(items, 0, size, k, j); }
  }

  /** A command that reads guest memory gives each byte of the buffer what lies at the byte's address. */
  lemma {:induction false} CommandReads(m: Mem, page: PageSize, prp1: u64, prp2: u64, i: nat)
    requires i < |m.buf| && Reference(m, page, prp1, prp2, false).Some?
    ensures var r, x := Reference(m, page, prp1, prp2, false).value, ByteAddress(m.ram, page, prp1, prp2, |m.buf|, i);
            && r.ram == m.ram && |r.buf| == |m.buf| && x.Some? && m.ram.Mapped(x.value, 1)
            && r.buf[i] == ByteAt(m.ram, x.value)
  {
    var items := Plan(m.ram, page, prp1, prp2, |m.buf|).items;
    PlanTiles(m.ram, page, prp1, prp2, |m.buf|);
    var k := PlanByte(m.ram, page, prp1, prp2, |m.buf|, i);
    ReadKeepsRam(m, items);
    MoveReadByte(m, items, |m.buf|, k, items[k], i);
  }

  /** A page can be moved: it is not at address zero, and all of it is mapped. */
  predicate Movable(m: Mem, p: Piece) { p.addr != 0 && m.ram.Mapped(p.addr, p.len) && p.off + p.len <= |m.buf| }

  lemma {:induction false} PieceMoved(m: Mem, ps: seq<Piece>, write: bool, k: nat)
    requires Move(m, ps, write).Some? && k < |ps|
    ensures Movable(m, ps[k])
  {
    var n := |ps| - 1;
    MoveKeepsShape(m, ps[..n], write);
    if k < n { PieceMoved(m, ps[..n], write, k); }
  }

  lemma {:induction false} AllMoved(m: Mem, ps: seq<Piece>, write: bool)
    requires forall k {:trigger ps[k]} :: 0 <= k < |ps| ==> Movable(m, ps[k])
    ensures Move(m, ps, write).Some?
  {
    if ps != [] {
      var n := |ps| - 1;
      AllMoved(m, ps[..n], write);
      MoveKeepsShape(m, ps[..n], write);
      assert Movable(m, ps[n]);
    }
  }

  /** A page behind byte `i` does not cover the byte's address if no later byte lies there. */
  lemma {:induction false} LaterSpares(ram: Ram, page: PageSize, prp1: u64, prp2: u64, size: nat, i: nat, x: nat,
                                       j: nat)
    requires size > 0 && Plan(ram, page, prp1, prp2, size).complete && j < |Plan(ram, page, prp1, prp2, size).items|
    requires forall l: nat :: i < l ==> !LiesAt(ram, page, prp1, prp2, size, l, x)
    requires i < Plan(ram, page, prp1, prp2, size).items[j].off
    ensures !CoversByte(Plan(ram, page, prp1, prp2, size).items[j], x)
  {
    var p := Plan(ram, page, prp1, prp2, size).items[j];
    if CoversByte(p, x) { PieceByte(ram, page, prp1, prp2, size, j, p.off + (x - p.addr)); }
  }

  /** A command that writes guest memory puts each byte at its address, unless a later byte goes there too. */
  lemma {:induction false} CommandWrites(m: Mem, page: PageSize, prp1: u64, prp2: u64, i: nat, x: nat)
    requires Reference(m, page, prp1, prp2, true).Some? && LiesAt(m.ram, page, prp1, prp2, |m.buf|, i, x)
    requires forall j: nat :: i < j ==> !LiesAt(m.ram, page, prp1, prp2, |m.buf|, j, x)
    ensures var r := Reference(m, page, prp1, prp2, true).value;
            && r.ram.base == m.ram.base && |r.ram.bytes| == |m.ram.bytes| && m.ram.Mapped(x, 1)
            && ByteAt(r.ram, x) == m.buf[i]
  {
    var size := |m.buf|;
    var items := Plan(m.ram, page, prp1, prp2, size).items;
    PlanTiles(m.ram, page, prp1, prp2, size);
    var k := PlanByte(m.ram, page, prp1, prp2, size, i);
    PieceMoved(m, items, true, k);
    forall j | k < j < |items| ensures !CoversByte(items[j], x) {
      TileOrder(items, 0, size, k, j);
      LaterSpares(m.ram, page, prp1, prp2, size, i, x, j);
    }
    MoveWriteByte(m, items, k, x);
  }

  /** ... and changes no other byte. */
  lemma {:induction false} CommandSpares(m: Mem, page: PageSize, prp1: u64, prp2: u64, x: nat)
    requires Reference(m, page, prp1, prp2, true).Some? && m.ram.Mapped(x, 1)
    requires forall j: nat :: !LiesAt(m.ram, page, prp1, prp2, |m.buf|, j, x)
    ensures var r := Reference(m, page, prp1, prp2, true).value;
            && r.ram.base == m.ram.base && |r.ram.bytes| == |m.ram.bytes|
            && ByteAt(r.ram, x) == ByteAt(m.ram, x)
  {
    var size := |m.buf|;
    if size > 0 {
      var items := Plan(m.ram, page, prp1, prp2, size).items;
      PlanTiles(m.ram, page, prp1, prp2, size);
      forall j | 0 <= j < |items| ensures !CoversByte(items[j], x) {
        if CoversByte(items[j], x) {
          PieceByte(m.ram, page, prp1, prp2, size, j, items[j].off + (x - items[j].addr));
        }
      }
      MoveSparesByte(m, items, x);
    }
  }

  // ----- when a command can be moved -----

  /** A list is complete exactly if its last page is reached. */
  lemma {:induction false} ListCompletes(ram: Ram, page: PageSize, list: u64, n: nat)
    requires n > 0
    ensures Entries(ram, page, list, n).complete <==>
            ChainPage(ram, page, list, LastPage(n, page / 8 - 1)).Some?
    decreases n
  {
    var e := PerList(page);
    LastPageStep(n, e - 1);
    if list != 0 && ram.Mapped(list, page) && n > e {
      ListCompletes(ram, page, ram.slot(ram.Peek(list, page), e - 1), n - (e - 1));
    }
  }

  lemma {:induction false} OffsetStarts(page: PageSize, prp1: u64, n: nat, j: nat, off: nat)
    requires n == page - prp1 % page && off == n + j * page
    ensures StartsPage(page, prp1, off)
  {
    assert (j + 1) * page == j * page + page;
    DivUnique(prp1 % page + off, page, j + 1, 0);
  }

  lemma {:induction false} ListPieceStarts(ram: Ram, page: PageSize, prp1: u64, prp2: u64, size: nat, n: nat, rest: nat,
                                           j: nat)
    requires n == FirstLen(page, prp1, size) == page - prp1 % page && rest == size - n > page
    requires Plan(ram, page, prp1, prp2, size).complete && j < Count(rest, page)
    ensures var items := Plan(ram, page, prp1, prp2, size).items;
            j + 1 < |items| && StartsPage(page, prp1, items[j + 1].off)
  {
    InCount(rest, page, j);
    var off := n + j * page;
    PieceInList(ram, page, prp1, prp2, size, n, rest, j, off);
    OffsetStarts(page, prp1, n, j, off);
  }

  /** Every piece of the plan starts the command or a page. */
  lemma {:induction false} PieceStarts(ram: Ram, page: PageSize, prp1: u64, prp2: u64, size: nat, k: nat)
    requires size > 0 && Plan(ram, page, prp1, prp2, size).complete && k < |Plan(ram, page, prp1, prp2, size).items|
    ensures StartsPage(page, prp1, Plan(ram, page, prp1, prp2, size).items[k].off)
  {
    var n := FirstLen(page, prp1, size);
    var rest := size - n;
    if k > 0 {
      FirstPageEnds(page, prp1, size, n);
      if rest > page {
        PlanOfList(ram, page, prp1, prp2, size, n, rest);
        ListPieceStarts(ram, page, prp1, prp2, size, n, rest, k - 1);
      } else {
        OffsetStarts(page, prp1, n, 0, n);
      }
    }
  }

  /** The walk breaks off only in the list. */
  lemma {:induction false} CompleteByList(ram: Ram, page: PageSize, prp1: u64, prp2: u64, size: nat)
    requires size > 0
    ensures Plan(ram, page, prp1, prp2, size).complete <==>
            (prp1 % page + size > 2 * page ==> ListOf(ram, page, prp1, prp2, size).complete)
  {
    FirstPageEnds(page, prp1, size, size - 1);
    if prp1 % page + size > 2 * page { CountIsCeiling(prp1 % page + size - page, page); }
  }

  /** Byte `i` lies in mapped memory; a page at address zero is refused. */
  ghost predicate Reachable(ram: Ram, page: PageSize, prp1: u64, prp2: u64, size: nat, i: nat)
    requires i < size
  {
    var x := ByteAddress(ram, page, prp1, prp2, size, i);
    x.Some? && ram.Mapped(x.value, 1) && (StartsPage(page, prp1, i) ==> x.value != 0)
  }

  lemma {:induction false} MovableByBytes(m: Mem, page: PageSize, prp1: u64, prp2: u64, k: nat)
    requires |m.buf| > 0 && Plan(m.ram, page, prp1, prp2, |m.buf|).complete
    requires k < |Plan(m.ram, page, prp1, prp2, |m.buf|).items|
    requires forall i :: 0 <= i < |m.buf| ==> Reachable(m.ram, page, prp1, prp2, |m.buf|, i)
    ensures Movable(m, Plan(m.ram, page, prp1, prp2, |m.buf|).items[k])
  {
    var size := |m.buf|;
    var items := Plan(m.ram, page, prp1, prp2, size).items;
    var p := items[k];
    PlanTiles(m.ram, page, prp1, prp2, size);
    TilePlace(items, 0, size, k);
    PieceStarts(m.ram, page, prp1, prp2, size, k);
    PieceByte(m.ram, page, prp1, prp2, size, k, p.off);
    PieceByte(m.ram, page, prp1, prp2, size, k, p.off + p.len - 1);
    assert Reachable(m.ram, page, prp1, prp2, size, p.off);
    assert Reachable(m.ram, page, prp1, prp2, size, p.off + p.len - 1);
  }

  /** A command succeeds exactly if its list is complete and all of its bytes can be reached. */
  lemma {:induction false} CommandSucceeds(m: Mem, page: PageSize, prp1: u64, prp2: u64, write: bool)
    requires |m.buf| > 0
    ensures var size := |m.buf|;
            Reference(m, page, prp1, prp2, write).Some? <==>
              && (prp1 % page + size > 2 * page ==> ListOf(m.ram, page, prp1, prp2, size).complete)
              && forall i :: 0 <= i < size ==> Reachable(m.ram, page, prp1, prp2, size, i)
  {
    var size := |m.buf|;
    var items := Plan(m.ram, page, prp1, prp2, size).items;
    CompleteByList(m.ram, page, prp1, prp2, size);
    if Reference(m, page, prp1, prp2, write).Some? {
      forall i | 0 <= i < size ensures Reachable(m.ram, page, prp1, prp2, size, i) {
        var k := PlanByte(m.ram, page, prp1, prp2, size, i);
        PieceMoved(m, items, write, k);
      }
    }
    if Plan(m.ram, page, prp1, prp2, size).complete &&
       forall i :: 0 <= i < size ==> Reachable(m.ram, page, prp1, prp2, size, i) {
      forall k {:trigger items[k]} | 0 <= k < |items| ensures Movable(m, items[k]) {
        MovableByBytes(m, page, prp1, prp2, k);
      }
      AllMoved(m, items, write);
    }
  }

  // ----- when the pages of a command are one stretch of addresses -----

  lemma {:induction false} InOrderAt(ps: seq<Piece>, prp1: u64, k: nat)
    requires InOrder(ps, prp1) && k < |ps|
    ensures ps[k].addr == (prp1 + ps[k].off) % TWO64
  {
    var n := |ps| - 1;
    Wrap64IsMod(prp1 + ps[n].off);
    if k < n {
      InOrderAt(ps[..n], prp1, k);
      assert ps[..n][k] == ps[k];
    }
  }

  lemma {:induction false} AllInOrder(ps: seq<Piece>, prp1: u64)
    requires forall k {:trigger ps[k]} :: 0 <= k < |ps| ==> ps[k].addr == (prp1 + ps[k].off) % TWO64
    ensures InOrder(ps, prp1)
  {
    if ps != [] {
      var n := |ps| - 1;
      Wrap64IsMod(prp1 + ps[n].off);
      AllInOrder(ps[..n], prp1);
    }
  }

  /** The pages are one stretch of addresses exactly if each of them starts where that stretch has it. */
  lemma {:induction false} StretchByPages(ram: Ram, page: PageSize, prp1: u64, prp2: u64, size: nat)
    requires size > 0 && Plan(ram, page, prp1, prp2, size).complete
    ensures InOrder(Plan(ram, page, prp1, prp2, size).items, prp1) <==>
            forall i: nat :: i < size && StartsPage(page, prp1, i) ==>
              LiesAt(ram, page, prp1, prp2, size, i, (prp1 + i) % TWO64)
  {
    var items := Plan(ram, page, prp1, prp2, size).items;
    if InOrder(items, prp1) {
      forall i: nat | i < size && StartsPage(page, prp1, i)
        ensures LiesAt(ram, page, prp1, prp2, size, i, (prp1 + i) % TWO64)
      {
        var k := PlanByte(ram, page, prp1, prp2, size, i);
        InOrderAt(items, prp1, k);
      }
    }
    if forall i: nat :: i < size && StartsPage(page, prp1, i) ==>
         LiesAt(ram, page, prp1, prp2, size, i, (prp1 + i) % TWO64) {
      PlanTiles(ram, page, prp1, prp2, size);
      forall k {:trigger items[k]} | 0 <= k < |items| ensures items[k].addr == (prp1 + items[k].off) % TWO64 {
        TilePlace(items, 0, size, k);
        PieceStarts(ram, page, prp1, prp2, size, k);
        PieceByte(ram, page, prp1, prp2, size, k, items[k].off);
      }
      AllInOrder(items, prp1);
    }
  }
}
