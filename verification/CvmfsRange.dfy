/** Ranged reads of whole and chunked files. */
module CvmfsRange {
  import opened Bytes
  import opened ByteStrings
  import opened Common

  const MAX_INT64 := 0x7fff_ffff_ffff_ffff

  type i64 = x: int | -MAX_INT64 - 1 <= x <= MAX_INT64
  type length64 = x: int | 0 <= x <= MAX_INT64

  /** Addition of two non-negative 64-bit integers, which may come out negative. */
  function Add64(a: length64, b: length64): i64 {
    if a + b <= MAX_INT64 then a + b else a + b - TWO64
  }

  // ----- the range of a request -----

  datatype Range = Range(start: i64, end: i64, eof: bool)

  function ByteRange(size: length64, offset: length64, length: length64): Range {
    if offset >= size then Range(size, size, true)
    else
      var end := if length > 0 && Add64(offset, length) < size then Add64(offset, length) else size;
      Range(offset, end, end == size)
  }

  /** What a request asks for: `length` bytes from `offset` on, all the rest when `length` is zero, cut at the end. */
  function Requested(size: nat, offset: nat, length: nat): (int, int, bool) {
    var start := if offset < size then offset else size;
    var end := if length == 0 || offset + length > size then size else offset + length;
    (start, end, end == size)
  }

  predicate Wraps(size: length64, offset: length64, length: length64) {
    offset < size && length > 0 && offset + length > MAX_INT64
  }

  /** byteRange is right exactly when the end of the request fits in 64 bits, or does not matter. */
  lemma {:induction false} ByteRangeExact(size: length64, offset: length64, length: length64)
    ensures var r := ByteRange(size, offset, length);
            (r.start, r.end, r.eof) == Requested(size, offset, length) <==> !Wraps(size, offset, length)
  {}

  /** A request near the top of the offset space: the end comes out before the start. */
  lemma {:induction false} ByteRangeWraps()
    ensures var r := ByteRange(2, 1, MAX_INT64); r.start == 1 && r.end < 0 && Requested(2, 1, MAX_INT64) == (1, 2, true)
  {}

  // ----- files -----

  datatype Chunk = Chunk(hash: seq<byte>, offset: length64, size: length64)

  /** A file entry: one object, or a list of chunks. */
  datatype Entry = Whole(hash: seq<byte>, size: length64) | Chunked(chunks: seq<Chunk>, size: length64)

  /** The object store: whole objects by hash. */
  type Store = seq<byte> -> seq<byte>

  function Join(store: Store, chunks: seq<Chunk>): seq<byte> {
    if chunks == [] then [] else Join(store, chunks[..|chunks| - 1]) + store(chunks[|chunks| - 1].hash)
  }

  /** Non-empty chunks, in order, each starting where the one before ends. */
  predicate Tiles(store: Store, chunks: seq<Chunk>) {
    chunks == [] ||
    var n := |chunks| - 1;
    && Tiles(store, chunks[..n])
    && chunks[n].size == |store(chunks[n].hash)| > 0 && chunks[n].offset == |Join(store, chunks[..n])|
  }

  predicate WellFormed(store: Store, e: Entry) {
    match e
    case Whole(h, size) => size == |store(h)|
    case Chunked(cs, size) => cs != [] && Tiles(store, cs) && size == |Join(store, cs)|
  }

  function Content(store: Store, e: Entry): seq<byte> {
    match e
    case Whole(h, _) => store(h)
    case Chunked(cs, _) => Join(store, cs)
  }

  lemma {:induction false} JoinPrefix(store: Store, chunks: seq<Chunk>, n: nat)
    requires n <= |chunks|
    ensures Join(store, chunks[..n]) <= Join(store, chunks)
    ensures n < |chunks| ==> Join(store, chunks[..n + 1]) == Join(store, chunks[..n]) + store(chunks[n].hash)
  {
    if n < |chunks| {
      assert chunks[..n + 1][..n] == chunks[..n];
    }
    if n == |chunks| {
      assert chunks[..n] == chunks;
    } else {
      var m := |chunks| - 1;
      JoinPrefix(store, chunks[..m], n);
      assert chunks[..m][..n] == chunks[..n];
    }
  }

  lemma {:induction false} TilesPrefix(store: Store, chunks: seq<Chunk>, n: nat)
    requires n <= |chunks| && Tiles(store, chunks)
    ensures Tiles(store, chunks[..n])
    ensures n < |chunks| ==>
              chunks[n].size == |store(chunks[n].hash)| > 0 && chunks[n].offset == |Join(store, chunks[..n])|
  {
    if n == |chunks| {
      assert chunks[..n] == chunks;
    } else {
      var m := |chunks| - 1;
      if n < m {
        TilesPrefix(store, chunks[..m], n);
        assert chunks[..m][..n] == chunks[..n] && chunks[..m][n] == chunks[n];
      }
    }
  }

  /** streamEntryData: chunk after chunk in list order, never more than the recorded size. */
  method StreamEntryData(store: Store, e: Entry) returns (out: Option<seq<byte>>)
    ensures WellFormed(store, e) ==> out == Some(Content(store, e))
  {
    if e.Whole? {
      return Some(store(e.hash));
    }
    if |e.chunks| == 0 {
      return None;
    }
    var written: seq<byte> := [];
    for i := 0 to |e.chunks|
      invariant WellFormed(store, e) ==> written == Join(store, e.chunks[..i])
    {
      JoinPrefix(store, e.chunks, i);
      JoinPrefix(store, e.chunks, i + 1);
      var remaining := e.size - |written|;
      if WellFormed(store, e) { TilesPrefix(store, e.chunks, i); }
      if remaining <= 0 {
        break;
      }
      var data := store(e.chunks[i].hash);
      if e.chunks[i].size > remaining && |data| > remaining {
        data := data[..remaining];
      }
      written := written + data;
    }
    assert e.chunks[..|e.chunks|] == e.chunks;
    out := Some(written);
  }

  /** copyCompressedRange: skip, then copy, stopping quietly where the object ends. */
  function ObjectRange(data: seq<byte>, offset: nat, length: nat): seq<byte> {
    if offset >= |data| then [] else data[offset..Min(offset + length, |data|)]
  }

  // ----- the order of chunks -----

  predicate ChunkLess(a: Chunk, b: Chunk) {
    a.offset < b.offset || (a.offset == b.offset && Less(a.hash, b.hash))
  }

  function InsertLast(chunks: seq<Chunk>, c: Chunk): seq<Chunk> {
    if chunks == [] || !ChunkLess(c, chunks[|chunks| - 1]) then chunks + [c]
    else InsertLast(chunks[..|chunks| - 1], c) + [chunks[|chunks| - 1]]
  }

  /** The sort of streamEntryDataRange. */
  function SortChunks(chunks: seq<Chunk>): seq<Chunk> {
    if chunks == [] then [] else InsertLast(SortChunks(chunks[..|chunks| - 1]), chunks[|chunks| - 1])
  }

  /** Tiling chunks are in order already. */
  lemma {:induction false} TilesAreSorted(store: Store, chunks: seq<Chunk>)
    requires Tiles(store, chunks)
    ensures SortChunks(chunks) == chunks
  {
    if chunks != [] {
      var n := |chunks| - 1;
      TilesAreSorted(store, chunks[..n]);
      assert chunks == chunks[..n] + [chunks[n]];
      if n > 0 { TilesPrefix(store, chunks[..n], n - 1); }
    }
  }

  // ----- reading a range -----

  /** The part of the file from `lo` to `hi` that lies before `pos`. */
  function Before(content: seq<byte>, lo: nat, hi: nat, pos: nat): seq<byte>
    requires lo <= hi <= |content| && pos <= |content|
  {
    content[Min(lo, pos)..Min(hi, pos)]
  }

  lemma {:induction false} SubSlice(s: seq<byte>, pos: nat, next: nat, x: nat, y: nat)
    requires x <= y && pos + y <= next <= |s|
    ensures s[pos..next][x..y] == s[pos + x..pos + y]
  {
    var t := s[pos..next];
    forall i | 0 <= i < y - x ensures t[x..y][i] == s[pos + x..pos + y][i] {
      assert t[x..y][i] == t[x + i];
      assert t[x + i] == s[pos + (x + i)];
    }
  }

  predicate Apart(lo: nat, hi: nat, pos: nat, next: nat) {
    next <= lo || pos >= hi || Min(hi, next) <= Max(lo, pos)
  }

  /** The next stretch of the file adds its overlap with the range. */
  lemma {:induction false} RangeStep(content: seq<byte>, lo: nat, hi: nat, pos: nat, next: nat)
    requires lo < hi <= |content| && pos < next <= |content|
    ensures Apart(lo, hi, pos, next) ==> Before(content, lo, hi, next) == Before(content, lo, hi, pos)
    ensures !Apart(lo, hi, pos, next) ==>
              Before(content, lo, hi, next) == Before(content, lo, hi, pos) + content[Max(lo, pos)..Min(hi, next)]
  {
    if Apart(lo, hi, pos, next) {
      if next <= lo {
        assert content[next..next] == content[pos..pos];
      }
    } else if pos <= lo {
      assert content[pos..pos] + content[lo..Min(hi, next)] == content[lo..Min(hi, next)];
    } else {
      Adjacent(content, lo, pos, Min(hi, next));
    }
  }

  lemma {:induction false} NoBytes(content: seq<byte>, offset: nat, length: nat)
    requires length == 0
    ensures offset + length <= |content| ==> content[offset..offset + length] == []
  {}

  lemma {:induction false} ChunkBytes(content: seq<byte>, before: seq<byte>, chunk: seq<byte>)
    requires before + chunk <= content
    ensures content[|before|..|before| + |chunk|] == chunk
  {}

  /** A tiling chunk is the stretch of the file from its offset on. */
  lemma {:induction false} ChunkPlace(store: Store, chunks: seq<Chunk>, i: nat)
    requires Tiles(store, chunks) && i < |chunks|
    ensures var c, content := chunks[i], Join(store, chunks);
            && c.offset == |Join(store, chunks[..i])| && c.size > 0
            && c.offset + c.size == |Join(store, chunks[..i + 1])| <= |content|
            && content[c.offset..c.offset + c.size] == store(c.hash)
  {
    TilesPrefix(store, chunks, i);
    JoinPrefix(store, chunks, i);
    JoinPrefix(store, chunks, i + 1);
    ChunkBytes(Join(store, chunks), Join(store, chunks[..i]), store(chunks[i].hash));
  }

  /** The range grows by a stretch's overlap with it. */
  lemma {:induction false} OverlapAdds(content: seq<byte>, data: seq<byte>, lo: nat, hi: nat, pos: nat, next: nat)
    requires lo < hi <= |content| && pos < next <= |content| && content[pos..next] == data
    ensures Before(content, lo, hi, next) ==
            if Apart(lo, hi, pos, next) then Before(content, lo, hi, pos)
            else Before(content, lo, hi, pos) + ObjectRange(data, Max(lo, pos) - pos, Min(hi, next) - Max(lo, pos))
  {
    RangeStep(content, lo, hi, pos, next);
    if !Apart(lo, hi, pos, next) {
      var a, b := Max(lo, pos), Min(hi, next);
      SubSlice(content, pos, next, a - pos, b - pos);
    }
  }

  /** The chunk loop of streamEntryDataRange. */
  method CopyOverlaps(store: Store, chunks: seq<Chunk>, lo: nat, hi: nat, ghost good: bool) returns (data: seq<byte>)
    requires lo < hi && (good ==> Tiles(store, chunks) && hi <= |Join(store, chunks)|)
    ensures good ==> data == Join(store, chunks)[lo..hi]
  {
    data := [];
    ghost var pos, content := 0, Join(store, chunks);
    for i := 0 to |chunks|
      invariant good ==> pos == |Join(store, chunks[..i])| <= |content|
      invariant good ==> data == Before(content, lo, hi, pos)
    {
      var c := chunks[i];
      var chunkStart, chunkEnd := c.offset, c.offset + c.size;
      if good {
        ChunkPlace(store, chunks, i);
        OverlapAdds(content, store(c.hash), lo, hi, chunkStart, chunkEnd);
      }
      pos := chunkEnd;
      var overlapStart, overlapEnd := Max(lo, chunkStart), Min(hi, chunkEnd);
      if chunkEnd <= lo || chunkStart >= hi || overlapEnd <= overlapStart {
        continue;
      }
      data := data + ObjectRange(store(c.hash), overlapStart - chunkStart, overlapEnd - overlapStart);
    }
    assert chunks[..|chunks|] == chunks;
  }

  /** streamEntryDataRange */
  method StreamRange(store: Store, e: Entry, offset: nat, length: nat) returns (out: Option<seq<byte>>)
    ensures WellFormed(store, e) && offset + length <= e.size ==>
              out == Some(Content(store, e)[offset..offset + length])
  {
    if length == 0 {
      NoBytes(Content(store, e), offset, length);
      return Some([]);
    }
    if e.Whole? {
      return Some(ObjectRange(store(e.hash), offset, length));
    }
    if |e.chunks| == 0 {
      return None;
    }
    var chunks := SortChunks(e.chunks);
    ghost var good := WellFormed(store, e) && offset + length <= e.size;
    if good { TilesAreSorted(store, e.chunks); }
    var data := CopyOverlaps(store, chunks, offset, offset + length, good);
    out := Some(data);
  }

  datatype Reply = Reply(data: seq<byte>, eof: bool)

  /** The slice that a request asks for, and whether it reaches the end. */
  function Slice(content: seq<byte>, offset: nat, length: nat): Reply {
    var (start, end, eof) := Requested(|content|, offset, length);
    Reply(content[start..end], eof)
  }

  lemma {:induction false} EmptySlice(content: seq<byte>, offset: nat, length: nat)
    ensures var (start, end, _) := Requested(|content|, offset, length);
            start == end ==> Slice(content, offset, length).data == []
  {}

  /** ReadFileRange of the remote repository; None where the request wraps and no buffer can be made. */
  method ReadRemote(store: Store, e: Entry, offset: length64, length: length64) returns (r: Option<Reply>)
    ensures WellFormed(store, e) ==>
              r == if Wraps(e.size, offset, length) then None else Some(Slice(Content(store, e), offset, length))
  {
    ByteRangeExact(e.size, offset, length);
    var range := ByteRange(e.size, offset, length);
    if range.start == range.end {
      EmptySlice(Content(store, e), offset, length);
      return Some(Reply([], range.eof));
    }
    if range.end < range.start {
      return None;
    }
    var data := StreamRange(store, e, range.start, range.end - range.start);
    r := if data.None? then None else Some(Reply(data.value, range.eof));
  }

  /** readLocalFileRange on a file's bytes. */
  method ReadLocal(file: seq<byte>, offset: length64, length: length64) returns (r: Option<Reply>)
    requires |file| <= MAX_INT64
    ensures r == if Wraps(|file|, offset, length) then None else Some(Slice(file, offset, length))
  {
    ByteRangeExact(|file|, offset, length);
    var range := ByteRange(|file|, offset, length);
    if range.start == range.end {
      EmptySlice(file, offset, length);
      return Some(Reply([], range.eof));
    }
    if range.end < range.start {
      return None;
    }
    r := Some(Reply(file[range.start..range.end], range.eof));
  }

  /** The cached branch of Client.ReadFileRange, on the bytes of the cached file. */
  method ReadCached(file: seq<byte>, offset: length64, length: length64) returns (r: Option<Reply>)
    requires |file| <= MAX_INT64
    ensures r == if Wraps(|file|, offset, length) then None else Some(Slice(file, offset, length))
  {
    if offset >= |file| {
      EmptySlice(file, offset, length);
      return Some(Reply([], true));
    }
    var end := |file|;
    if length > 0 && Add64(offset, length) < end {
      end := Add64(offset, length);
    }
    if end < offset {
      return None;
    }
    r := Some(Reply(file[offset..end], end == |file|));
  }

  /** Where Client.ReadFileRange finds a file. */
  datatype Origin = Local(file: seq<byte>) | Cached(copy: seq<byte>) | Remote

  /**
    Client.ReadFileRange: a negative offset or length is refused; all branches give the same slice
    when they are to serve the same file.
   */
  method ReadFileRange(store: Store, e: Entry, origin: Origin, offset: i64, length: i64) returns (r: Option<Reply>)
    requires WellFormed(store, e)
    requires origin.Local? ==> origin.file == Content(store, e)
    requires origin.Cached? ==> origin.copy == Content(store, e)
    ensures r == if offset < 0 || length < 0 || Wraps(e.size, offset, length) then None
                 else Some(Slice(Content(store, e), offset, length))
  {
    if offset < 0 || length < 0 {
      return None;
    }
    match origin
    case Local(file) => r := ReadLocal(file, offset, length);
    case Cached(copy) => r := ReadCached(copy, offset, length);
    case Remote =>
      if offset == 0 && length == 0 {
        var data := StreamEntryData(store, e);
        var all := Content(store, e);
        assert all[0..|all|] == all;
        r := if data.None? then None else Some(Reply(data.value, true));
      } else {
        r := ReadRemote(store, e, offset, length);
      }
  }

  lemma {:induction false} SliceExtends(content: seq<byte>, pos: nat, step: nat)
    requires pos <= |content| && step > 0
    ensures var s := Slice(content, pos, step);
            && pos + |s.data| <= |content| && content[..pos] + s.data == content[..pos + |s.data|]
            && (if s.eof then pos + |s.data| == |content| else |s.data| > 0)
  {}

  /** Successive requests of one length, each where the one before stopped, give the whole file. */
  method ReadWhole(store: Store, e: Entry, origin: Origin, step: length64) returns (out: seq<byte>)
    requires WellFormed(store, e) && 0 < step && e.size + step <= MAX_INT64
    requires origin.Local? ==> origin.file == Content(store, e)
    requires origin.Cached? ==> origin.copy == Content(store, e)
    ensures out == Content(store, e)
  {
    out := [];
    ghost var content := Content(store, e);
    while true
      invariant |out| <= |content| && out == content[..|out|]
      decreases |content| - |out|
    {
      var r := ReadFileRange(store, e, origin, |out|, step);
      SliceExtends(content, |out|, step);
      out := out + r.value.data;
      if r.value.eof {
        break;
      }
    }
  }
}
