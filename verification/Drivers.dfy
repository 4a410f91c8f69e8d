/** The trace interpreters of mdriver.c. */
module Drivers {
  import opened Words
  import opened Tiles
  import opened Heaps
  import opened Mallocs
  import opened HeapTheorems
  import opened HeapWords
  import opened Folds
  import opened Steps
  import opened Memory
  import opened RangeLists
  import opened Allocators
  import opened Bytes
  import opened Sums
  import opened Accounting
  import opened Traces

  /** add_range: the extent is recorded exactly when it is aligned, inside the heap and hits no
      recorded extent. */
  method AddRange(ranges: RangeList, mem: Mem, lo: int, size: int) returns (ok: bool)
    requires ranges.Valid() && mem.Valid() && size > 0
    modifies ranges
    ensures ranges.Valid() && fresh(ranges.Repr() - old(ranges.Repr()))
    ensures ok <==>
      && lo % 8 == 0
      && mem.start <= lo && lo + size <= mem.brk
      && forall e :: e in old(ranges.Extents()) ==> !Hits(lo, lo + size - 1, e)
    ensures ranges.Extents() == (if ok then [(lo, lo + size - 1)] else []) + old(ranges.Extents())
  {
    var hi := lo + size - 1;
    if lo % 8 != 0 {
      return false;
    }
    if lo < mem.HeapLo() || lo > mem.HeapHi() || hi < mem.HeapLo() || hi > mem.HeapHi() {
      return false;
    }
    var hit := ranges.AnyHit(lo, hi);
    if hit {
      return false;
    }
    ranges.Push(lo, hi);
    return true;
  }

  /** memset, byte by byte. */
  method Memset(mem: Mem, p: int, b: int, n: int)
    requires mem.Valid() && p % 4 == 0 && 0 <= n && 0 <= b < 0x100
    requires mem.start <= p && p + n + 8 <= mem.brk
    modifies mem`image, mem.words
    ensures mem.Valid() && IsMemset(old(mem.image), mem.image, p, n, b)
  {
    ghost var m := mem.image;
    var j := 0;
    while j < n
      invariant 0 <= j <= n
      invariant mem.Valid() && IsMemset(m, mem.image, p, j, b)
    {
      ghost var m1 := mem.image;
      WordInside(p, p + j);
      StoreByte(mem, p + j, b);
      j := j + 1;
    }
  }

  method StoreByte(mem: Mem, a: int, b: int)
    requires mem.Valid() && 0 <= b < 0x100
    requires mem.start <= WordOf(a) && WordOf(a) + 4 <= mem.brk
    modifies mem`image, mem.words
    ensures mem.Valid()
    ensures forall x {:trigger ByteAt(mem.image, x)} ::
              ByteAt(mem.image, x) == if x == a then b else ByteAt(old(mem.image), x)
    ensures forall x {:trigger At(mem.image, x)} :: x != WordOf(a) ==> At(mem.image, x) == At(old(mem.image), x)
  {
    var w := mem.Get(WordOf(a));
    mem.Put(WordOf(a), SetByte(w, a % 4, b));
    forall x
      ensures ByteAt(mem.image, x) == if x == a then b else ByteAt(old(mem.image), x)
    {
      StoredReads(old(mem.image), a, b, x);
    }
  }

  /** The driver's tables agree with the run: the range list holds the payloads in use, and
      `blocks` the address of each live id. */
  ghost predicate Agree(ext: seq<(int, int)>, blocks: seq<int>, s: State) {
    forall i {:trigger Unfold(i)} :: Unfold(i) ==>
      && Matches(ext, s.req)
      && forall id :: id in s.env ==> id < |blocks| && blocks[id] == s.env[id]
  }

  lemma AgreeAlloc(ext: seq<(int, int)>, blocks: seq<int>, s: State, h: Heap, index: nat, p: int, size: int)
    requires Agree(ext, blocks, s) && p !in s.req && index < |blocks|
    ensures Agree([(p, p + size - 1)] + ext, blocks[index := p], State(h, s.env[index := p], s.req[p := size]))
  {
    assert Unfold(0);
    MatchesPush(ext, s.req, p, size);
  }

  lemma AgreeRelease(ext: seq<(int, int)>, blocks: seq<int>, s: State, h: Heap, index: nat)
    requires Agree(ext, blocks, s) && index in s.env
    ensures index < |blocks| && blocks[index] == s.env[index]
    ensures
      var p := s.env[index];
      Agree(WithoutLo(ext, p), blocks, State(h, s.env - {index}, s.req - {p}))
  {
    assert Unfold(0);
    MatchesRemove(ext, s.req, s.env[index]);
  }

  /** add_range accepts mm_malloc's block, and its payload may be filled. */
  lemma NewBlock(s: State, limit: int, size: int, ext: seq<(int, int)>, blocks: seq<int>)
    requires StateOk(s) && s.heap.brk <= limit && Asked(s.heap, limit, size) && Agree(ext, blocks, s)
    requires Malloc(s.heap, limit, size).1 != 0
    ensures
      var (h, p) := Malloc(s.heap, limit, size);
      && p % 8 == 0 && p !in s.req && s.heap.base < p && p + size + 8 <= h.brk
      && IsLive(h.tiles, p) && size + 8 <= h.tiles[p].size
      && forall e :: e in ext ==> !Hits(p, p + size - 1, e)
  {
    assert Matches(ext, s.req) by {
      assert Unfold(0);
    }
    NewRangeAccepted(s, limit, size, ext);
    AllocOk(s, limit, 0, size);
    var (h, p) := Malloc(s.heap, limit, size);
    StateBlock(State(h, s.env[0 := p], s.req[p := size]), p);
  }

  /** mm_malloc, add_range and memset of the ALLOC case. */
  method NewPayload(mm: Allocator, ranges: RangeList, blocks: array<int>, b: int, size: int, ghost s: State)
    returns (ok: bool, p: int, ghost m1: Image)
    requires mm.Valid() && mm.ranges == ranges && s.heap == mm.heap && StateOk(s)
    requires Agree(ranges.Extents(), blocks[..], s)
    requires Asked(s.heap, mm.mem.limit, size) && 0 <= b < 0x100
    modifies mm`heap, mm.mem`brk, mm.mem`image, mm.mem.words, ranges
    ensures mm.Valid() && mm.ranges == ranges && fresh(ranges.Repr() - old(ranges.Repr()))
    ensures Malloced(s.heap, mm.heap, mm.mem.limit, size, p) && (ok <==> p != 0)
    ensures ok ==>
      && Kept(old(mm.mem.image), m1, s.heap.tiles) && IsMemset(m1, mm.mem.image, p, size, b)
      && ranges.Extents() == [(p, p + size - 1)] + old(ranges.Extents())
  {
    ghost var limit, ext := mm.mem.limit, ranges.Extents();
    p := mm.MmMalloc(size);
    m1 := mm.mem.image;
    if p == 0 {
      return false, p, m1;
    }
    NewBlock(s, limit, size, ext, blocks[..]);
    WordMultiple(p);
    ok := AddRange(ranges, mm.mem, p, size);
    assert fresh(ranges.Repr() - old(ranges.Repr()));
    if !ok {
      return;
    }
    FillBlock(mm, p, b, size);
  }

  lemma AllocDone(m: Image, m1: Image, m2: Image, ext: seq<(int, int)>, blocks: seq<int>,
                  s: State, limit: int, index: nat, size: int, h: Heap, p: int) returns (s': State)
    requires StateOk(s) && s.heap.brk <= limit && Asked(s.heap, limit, size) && index < |blocks|
    requires Malloced(s.heap, h, limit, size, p) && p != 0
    requires Agree(ext, blocks, s) && Filled(m, s)
    requires Kept(m, m1, s.heap.tiles) && IsMemset(m1, m2, p, size, index % 0x100)
    ensures Step(s, limit, Alloc(index, size)) == Some(s') && s'.heap == h && StateOk(s')
    ensures Agree([(p, p + size - 1)] + ext, blocks[index := p], s') && Filled(m2, s')
    ensures Survive(m, m2, s.heap.tiles, h.tiles)
  {
    s' := State(h, s.env[index := p], s.req[p := size]);
    MallocedIs(s.heap, h, limit, size, p);
    StepIsRequest(s, limit, Alloc(index, size));
    AllocOk(s, limit, index, size);
    FilledAlloc(m, m1, m2, s, limit, index, size);
    SurviveAlloc(m, m1, m2, s, limit, index, size);
    AgreeAlloc(ext, blocks, s, h, index, p, size);
  }

  lemma AllocFails(s: State, limit: int, index: nat, size: int, h: Heap)
    requires Malloced(s.heap, h, limit, size, 0)
    ensures Step(s, limit, Alloc(index, size)).None?
  {
    MallocedIs(s.heap, h, limit, size, 0);
    StepIsRequest(s, limit, Alloc(index, size));
  }

  /** The ALLOC case of eval_mm_valid. */
  method AllocRequest(mm: Allocator, ranges: RangeList, blocks: array<int>, sizes: array<int>, index: nat, size: int,
                      ghost s: State)
    returns (ok: bool, ghost s': State)
    requires mm.Valid() && mm.ranges == ranges && s.heap == mm.heap && StateOk(s)
    requires Agree(ranges.Extents(), blocks[..], s) && Filled(mm.mem.image, s)
    requires index < blocks.Length == sizes.Length && Asked(s.heap, mm.mem.limit, size)
    requires blocks as object !in mm.Repr() && sizes as object !in mm.Repr() && blocks != sizes
    modifies mm`heap, mm.mem`brk, mm.mem`image, mm.mem.words, ranges, blocks, sizes
    ensures mm.Valid() && mm.ranges == ranges && fresh(ranges.Repr() - old(ranges.Repr()))
    ensures ok <==> Step(s, mm.mem.limit, Alloc(index, size)).Some?
    ensures ok ==>
      && Step(s, mm.mem.limit, Alloc(index, size)) == Some(s') && s'.heap == mm.heap && StateOk(s')
      && Agree(ranges.Extents(), blocks[..], s') && Filled(mm.mem.image, s')
      && sizes[..] == old(sizes[..])[index := size]
      && Survive(old(mm.mem.image), mm.mem.image, s.heap.tiles, s'.heap.tiles)
  {
    ghost var m, limit, ext, bs := mm.mem.image, mm.mem.limit, ranges.Extents(), blocks[..];
    s' := s;
    var p;
    ghost var m1;
    ok, p, m1 := NewPayload(mm, ranges, blocks, index % 0x100, size, s);
    if !ok {
      AllocFails(s, limit, index, size, mm.heap);
      return;
    }
    blocks[index] := p;
    sizes[index] := size;
    assert blocks[..] == bs[index := p];
    assert ranges.Extents() == [(p, p + size - 1)] + ext;
    s' := AllocDone(m, m1, mm.mem.image, ext, bs, s, limit, index, size, mm.heap, p);
  }

  lemma WordMultiple(p: int)
    requires p % 8 == 0
    ensures p % 4 == 0
  {
    assert p == 4 * (2 * (p / 8));
  }

  /** The memset of the ALLOC case. */
  method FillBlock(mm: Allocator, p: int, b: int, size: int)
    requires mm.Valid() && IsLive(mm.heap.tiles, p) && 0 < size && size + 8 <= mm.heap.tiles[p].size
    requires p % 4 == 0 && mm.heap.base < p && p + size + 8 <= mm.heap.brk && 0 <= b < 0x100
    modifies mm.mem`image, mm.mem.words
    ensures mm.Valid() && IsMemset(old(mm.mem.image), mm.mem.image, p, size, b)
  {
    ghost var m := mm.mem.image;
    Memset(mm.mem, p, b, size);
    PayloadWrite(m, mm.mem.image, mm.heap, p, size, b);
  }

  /** The FREE case of eval_mm_valid. */
  method ReleaseRequest(mm: Allocator, ranges: RangeList, blocks: array<int>, index: nat, ghost s: State)
    returns (ghost s': State)
    requires mm.Valid() && mm.ranges == ranges && s.heap == mm.heap && StateOk(s)
    requires Agree(ranges.Extents(), blocks[..], s) && Filled(mm.mem.image, s)
    requires index in s.env && blocks as object !in mm.Repr()
    requires index < blocks.Length
    modifies mm`heap, mm.mem`image, mm.mem.words, ranges.Repr()
    ensures mm.Valid() && mm.ranges == ranges && ranges.Repr() <= old(ranges.Repr())
    ensures Step(s, mm.mem.limit, Release(index)) == Some(s') && s'.heap == mm.heap && StateOk(s')
    ensures Agree(ranges.Extents(), blocks[..], s') && Filled(mm.mem.image, s')
    ensures Survive(old(mm.mem.image), mm.mem.image, s.heap.tiles, s'.heap.tiles)
  {
    ghost var m, ext, bs := mm.mem.image, ranges.Extents(), blocks[..];
    StepIsRequest(s, mm.mem.limit, Release(index));
    AgreeRelease(ext, bs, s, Free(s.heap, s.env[index]), index);
    ReleaseOk(s, index);
    var p := blocks[index];
    mm.MmFree(p);
    s' := State(mm.heap, s.env - {index}, s.req - {p});
    FilledRelease(m, mm.mem.image, s, index);
    assert Ok(s.heap, 0) by {
      assert Unfold(0);
    }
    SurviveFree(m, mm.mem.image, s.heap, p);
    assert blocks[..] == bs;
  }

  /** The run's start, once mm_init has returned: one free page. */
  ghost function Start(base: int): State {
    State(Extend(Empty(base), CHUNKSIZE), map[], map[])
  }

  /** Everything the trace loop keeps true. */
  ghost predicate Running(mm: Allocator, ranges: RangeList, blocks: array<int>, s: State)
    reads mm, mm.Repr(), ranges, ranges.Repr(), blocks
  {
    forall i {:trigger Unfold(i)} :: Unfold(i) ==>
      && mm.Valid() && mm.ranges == ranges && s.heap == mm.heap && StateOk(s)
      && Agree(ranges.Extents(), blocks[..], s) && Filled(mm.mem.image, s)
      && s.heap.brk <= mm.mem.limit
  }

  /** The switch of eval_mm_valid's loop. */
  method OneRequest(mm: Allocator, ranges: RangeList, blocks: array<int>, sizes: array<int>, op: Op, ghost s: State)
    returns (ok: bool, ghost s': State)
    requires Running(mm, ranges, blocks, s) && Fits(op, s.env.Keys) && Serves(s, mm.mem.limit, op)
    requires op.index < blocks.Length == sizes.Length
    requires blocks as object !in mm.Repr() && sizes as object !in mm.Repr() && blocks != sizes
    modifies mm`heap, mm.mem`brk, mm.mem`image, mm.mem.words, ranges.Repr(), blocks, sizes
    ensures mm.Valid() && mm.ranges == ranges && fresh(ranges.Repr() - old(ranges.Repr()))
    ensures ok <==> Step(s, mm.mem.limit, op).Some?
    ensures ok ==> Step(s, mm.mem.limit, op) == Some(s') && Running(mm, ranges, blocks, s')
    ensures ok ==> Survive(old(mm.mem.image), mm.mem.image, s.heap.tiles, s'.heap.tiles)
  {
    assert Unfold(0);
    StepOk(s, mm.mem.limit, op);
    match op {
      case Alloc(index, size) =>
        ServesAsked(s, mm.mem.limit, index, size);
        ok, s' := AllocRequest(mm, ranges, blocks, sizes, index, size, s);
      case Release(index) =>
        ok := true;
        s' := ReleaseRequest(mm, ranges, blocks, index, s);
      case Resize(index, size) =>
        var newp := mm.MmRealloc(blocks[index], size);
        assert newp == 0;
        ok, s' := false, s;
    }
  }

  /** One round of the trace loop of eval_mm_valid. */
  method TraceRound(mm: Allocator, ranges: RangeList, blocks: array<int>, sizes: array<int>, ops: seq<Op>, i: nat,
                    ghost s0: State, ghost s: State, ghost m0: Image, ghost snaps: seq<Snap>)
    returns (ok: bool, ghost s': State, ghost snaps': seq<Snap>)
    requires StateOk(s0) && s0.heap.brk <= mm.mem.limit && s0.env == map[]
    requires Running(mm, ranges, blocks, s) && mm.ranges == ranges
    requires blocks.Length == sizes.Length
    requires WellFormed(ops, blocks.Length) && Unwrapped(s0, mm.mem.limit, ops, |ops|)
    requires blocks as object !in mm.Repr() && sizes as object !in mm.Repr() && blocks != sizes
    requires i < |ops| && |snaps| == i + 1 && RunTo(s0, mm.mem.limit, ops, i) == Some(s)
    requires Story(s0, mm.mem.limit, ops, snaps, m0, mm.mem.image, s)
    modifies mm`heap, mm.mem`brk, mm.mem`image, mm.mem.words, ranges.Repr(), blocks, sizes
    ensures mm.ranges == ranges && fresh(ranges.Repr() - old(ranges.Repr()))
    ensures !ok ==> RunTo(s0, mm.mem.limit, ops, |ops|).None?
    ensures ok ==>
      && RunTo(s0, mm.mem.limit, ops, i + 1) == Some(s') && Running(mm, ranges, blocks, s')
      && Story(s0, mm.mem.limit, ops, snaps', m0, mm.mem.image, s') && |snaps'| == |snaps| + 1
  {
    ghost var m := mm.mem.image;
    RunOk(s0, mm.mem.limit, ops, blocks.Length, i);
    assert FitsHere(ops, blocks.Length, i);
    ServesReached(s0, mm.mem.limit, ops, i);
    RunNext(s0, mm.mem.limit, ops, i, s);
    ok, s' := OneRequest(mm, ranges, blocks, sizes, ops[i], s);
    snaps' := snaps + [Snap(mm.mem.image, s'.heap.tiles)];
    if ok {
      StoryNext(s0, mm.mem.limit, ops, snaps, m0, m, s, mm.mem.image, s');
    } else {
      RunStops(s0, mm.mem.limit, ops, i + 1, |ops|);
    }
  }

  /** The trace loop of eval_mm_valid, told as a story. */
  method TraceLoop(mm: Allocator, ranges: RangeList, blocks: array<int>, sizes: array<int>, ops: seq<Op>,
                   ghost s0: State)
    returns (ok: bool, ghost s: State, ghost snaps: seq<Snap>, ghost m: Image)
    requires Running(mm, ranges, blocks, s0) && mm.ranges == ranges
    requires StateOk(s0) && s0.heap.brk <= mm.mem.limit && s0.env == map[]
    requires blocks.Length == sizes.Length
    requires WellFormed(ops, blocks.Length) && Unwrapped(s0, mm.mem.limit, ops, |ops|)
    requires blocks as object !in mm.Repr() && sizes as object !in mm.Repr() && blocks != sizes
    modifies mm`heap, mm.mem`brk, mm.mem`image, mm.mem.words, ranges.Repr(), blocks, sizes
    ensures mm.ranges == ranges && fresh(ranges.Repr() - old(ranges.Repr()))
    ensures Story(s0, mm.mem.limit, ops, snaps, old(mm.mem.image), m, s)
    ensures if ok then RunTo(s0, mm.mem.limit, ops, |ops|) == Some(s) && Running(mm, ranges, blocks, s)
            else RunTo(s0, mm.mem.limit, ops, |ops|).None?
    ensures ok ==> m == mm.mem.image && |snaps| == |ops| + 1
  {
    m := mm.mem.image;
    s := s0;
    snaps := [Snap(m, s.heap.tiles)];
    ghost var m0, limit := m, mm.mem.limit;
    StoryStart(s0, limit, ops, m);
    var i := 0;
    while i < |ops|
      invariant 0 <= i <= |ops|
      invariant RunTo(s0, limit, ops, i) == Some(s) && Running(mm, ranges, blocks, s)
      invariant mm.ranges == ranges && fresh(ranges.Repr() - old(ranges.Repr()))
      invariant Story(s0, limit, ops, snaps, m0, m, s) && |snaps| == i + 1 && m == mm.mem.image
    {
      ghost var next, more;
      ok, next, more := TraceRound(mm, ranges, blocks, sizes, ops, i, s0, s, m0, snaps);
      if !ok {
        return;
      }
      m := mm.mem.image;
      s, snaps := next, more;
      i := i + 1;
    }
    ok := true;
  }

  /** The trace loop of eval_mm_valid. When it completes, every payload named by a live id still
      holds the bytes it was filled with, and no payload in use ever lost a word. */
  method RunTrace(mm: Allocator, ranges: RangeList, blocks: array<int>, sizes: array<int>, ops: seq<Op>,
                  ghost s0: State)
    returns (ok: bool, ghost s: State, ghost snaps: seq<Snap>)
    requires Running(mm, ranges, blocks, s0) && s0.env == map[]
    requires blocks.Length == sizes.Length
    requires WellFormed(ops, blocks.Length) && Unwrapped(s0, mm.mem.limit, ops, |ops|)
    requires blocks as object !in mm.Repr() && sizes as object !in mm.Repr() && blocks != sizes
    modifies mm`heap, mm.mem`brk, mm.mem`image, mm.mem.words, ranges.Repr(), blocks, sizes
    ensures fresh(ranges.Repr() - old(ranges.Repr()))
    ensures ok <==> RunTo(s0, mm.mem.limit, ops, |ops|).Some?
    ensures ok ==> RunTo(s0, mm.mem.limit, ops, |ops|) == Some(s) && Running(mm, ranges, blocks, s)
    ensures History(snaps) && Snapped(s0, mm.mem.limit, ops, snaps) && snaps[0].image == old(mm.mem.image)
    ensures ok ==> |snaps| == |ops| + 1 && snaps[|ops|].image == mm.mem.image
  {
    ghost var m;
    assert StateOk(s0) && s0.heap.brk <= mm.mem.limit && mm.ranges == ranges by {
      assert Unfold(0);
    }
    ok, s, snaps, m := TraceLoop(mm, ranges, blocks, sizes, ops, s0);
    assert Unfold(0);
  }

  lemma AgreeMeansLive(ext: seq<(int, int)>, blocks: seq<int>, s: State)
    requires Agree(ext, blocks, s) && StateOk(s)
    ensures DistinctLo(ext) && forall e :: e in ext ==> IsLive(s.heap.tiles, e.0)
  {
    assert Unfold(0);
    forall e | e in ext
      ensures IsLive(s.heap.tiles, e.0)
    {
      StateBlock(s, e.0);
    }
  }

  lemma NoneLeft(m: Image, h: Heap)
    requires Whole(m, h, 0) && h.Lo() < h.brk && Live(h.tiles) == map[]
    ensures AllFree(h)
  {
    assert Unfold(0);
    NoneLive(h);
  }

  /** The beginning of eval_mm_valid: an empty range list and a fresh heap of one page. */
  method StartTrace(mm: Allocator, ranges: RangeList, blocks: array<int>) returns (r: int)
    requires mm.mem.Valid() && ranges.Valid() && blocks as object != mm.mem.words
    modifies mm, mm.mem`brk, mm.mem`image, mm.mem.words, ranges
    ensures r == 0 && mm.ranges == ranges && ranges.Repr() == {ranges}
    ensures Running(mm, ranges, blocks, Start(mm.mem.start)) && StateOk(Start(mm.mem.start))
    ensures Start(mm.mem.start).heap.brk <= mm.mem.limit
  {
    mm.mem.ResetBrk();
    ranges.Clear();
    r := mm.MmInit(ranges);
    ghost var s := Start(mm.mem.start);
  }

  /** The end of eval_mm_valid: mm_exit leaves nothing behind. */
  method EndTrace(mm: Allocator, ranges: RangeList, blocks: array<int>, ghost s: State) returns (ok: bool)
    requires Running(mm, ranges, blocks, s) && mm.ranges == ranges
    modifies mm`heap, mm.mem`image, mm.mem.words, ranges.Repr()
    ensures ok && mm.Valid() && ranges.Extents() == [] && AllFree(mm.heap)
  {
    assert mm.Valid() && s.heap == mm.heap && StateOk(s) && Agree(ranges.Extents(), blocks[..], s) by {
      assert Unfold(0);
    }
    AgreeMeansLive(ranges.Extents(), blocks[..], s);
    ghost var freed := mm.MmExit();
    NoneLeft(mm.mem.image, mm.heap);
    ok := ranges.head == null;
  }

  /** eval_mm_valid: a well-formed trace is judged valid exactly when no request is a REALLOC or
      runs out of memory; then mm_exit leaves the range list empty and the heap one free block. */
  method EvalMmValid(mm: Allocator, ranges: RangeList, blocks: array<int>, sizes: array<int>, ops: seq<Op>)
    returns (ok: bool)
    requires mm.mem.Valid() && ranges.Valid()
    requires blocks.Length == sizes.Length && WellFormed(ops, blocks.Length)
    requires Unwrapped(Start(mm.mem.start), mm.mem.limit, ops, |ops|)
    requires blocks as object != mm.mem.words && sizes as object != mm.mem.words && blocks != sizes
    modifies mm, mm.mem`brk, mm.mem`image, mm.mem.words, ranges, blocks, sizes
    ensures ok <==> forall i :: 0 <= i < |ops| ==> !RunsOut(Start(mm.mem.start), mm.mem.limit, ops, i)
    ensures ok ==> mm.Valid() && ranges.Extents() == [] && AllFree(mm.heap)
  {
    var r := StartTrace(mm, ranges, blocks);
    if r < 0 {
      return false;
    }
    ghost var s, snaps;
    RunFailsIff(Start(mm.mem.start), mm.mem.limit, ops, blocks.Length, |ops|);
    ok, s, snaps := RunTrace(mm, ranges, blocks, sizes, ops, Start(mm.mem.start));
    if ok {
      ok := EndTrace(mm, ranges, blocks, s);
    }
  }

  // ---- eval_mm_util ----

  /** The most payload in use after any of the first n requests: what an allocator without gaps
      or tags would need. */
  ghost function Peak(s: State, limit: int, ops: seq<Op>, n: nat): int
    requires n <= |ops| && RunTo(s, limit, ops, n).Some?
  {
    var now := Sum(RunTo(s, limit, ops, n).value.req);
    if n == 0 then now
    else
      var before := Peak(s, limit, ops, n - 1);
      if now > before then now else before
  }

  /** It is the payload in use after i requests. */
  ghost predicate InUseAt(s: State, limit: int, ops: seq<Op>, i: nat, total: int)
    requires i <= |ops|
  {
    RunTo(s, limit, ops, i).Some? && total == Sum(RunTo(s, limit, ops, i).value.req)
  }

  /** The peak is reached after some request, and never passed. */
  lemma {:induction false} PeakIsMost(s: State, limit: int, ops: seq<Op>, n: nat)
    requires n <= |ops| && RunTo(s, limit, ops, n).Some?
    ensures exists i :: 0 <= i <= n && InUseAt(s, limit, ops, i, Peak(s, limit, ops, n))
    ensures forall i, total :: 0 <= i <= n && InUseAt(s, limit, ops, i, total) ==> total <= Peak(s, limit, ops, n)
  {
    var peak, now := Peak(s, limit, ops, n), Sum(RunTo(s, limit, ops, n).value.req);
    assert InUseAt(s, limit, ops, n, now);
    if n > 0 {
      PeakIsMost(s, limit, ops, n - 1);
      var i :| 0 <= i < n && InUseAt(s, limit, ops, i, Peak(s, limit, ops, n - 1));
      assert InUseAt(s, limit, ops, if now == peak then n else i, peak);
    }
  }

  /** The payload in use never exceeds the heap, nor does its peak the final heap. */
  lemma {:induction false} PeakFitsHeap(s: State, limit: int, ops: seq<Op>, numIds: nat, n: nat)
    requires StateOk(s) && s.env == map[] && s.heap.brk <= limit
    requires WellFormed(ops, numIds) && n <= |ops| && Unwrapped(s, limit, ops, n)
    requires RunTo(s, limit, ops, n).Some?
    ensures 0 <= Peak(s, limit, ops, n) <= RunTo(s, limit, ops, n).value.heap.brk - s.heap.base
    decreases n
  {
    RunOk(s, limit, ops, numIds, n);
    PayloadInHeap(RunTo(s, limit, ops, n).value);
    if n > 0 {
      PeakFitsHeap(s, limit, ops, numIds, n - 1);
      HeapGrows(s, limit, ops, numIds, n - 1);
    }
  }

  /** No request shrinks the heap. */
  lemma HeapGrows(s: State, limit: int, ops: seq<Op>, numIds: nat, n: nat)
    requires StateOk(s) && s.env == map[] && s.heap.brk <= limit
    requires WellFormed(ops, numIds) && n < |ops| && Unwrapped(s, limit, ops, n + 1)
    requires RunTo(s, limit, ops, n + 1).Some?
    ensures RunTo(s, limit, ops, n).Some?
    ensures RunTo(s, limit, ops, n).value.heap.brk <= RunTo(s, limit, ops, n + 1).value.heap.brk
  {
    ServesReached(s, limit, ops, n);
    RunOk(s, limit, ops, numIds, n);
    assert FitsHere(ops, numIds, n);
    StepOk(RunTo(s, limit, ops, n).value, limit, ops[n]);
  }

  lemma PayloadInHeap(s: State)
    requires StateOk(s)
    ensures 0 <= Sum(s.req) <= s.heap.brk - s.heap.base
  {
    assert Unfold(0);
    forall a | a in s.req
      ensures IsLive(s.heap.tiles, a) && 0 < s.req[a] <= s.heap.tiles[a].size
    {
      StateBlock(s, a);
    }
    PayloadFitsHeap(s.heap, s.req);
    SumMono(map[], s.req);
  }

  /** The tables of eval_mm_util: addresses and sizes of the live ids, and the payload total. */
  ghost predicate Totals(blocks: seq<int>, sizes: seq<int>, total: int, s: State) {
    forall i {:trigger Unfold(i)} :: Unfold(i) ==>
      && |blocks| == |sizes| && total == Sum(s.req)
      && forall id :: id in s.env ==>
           id < |blocks| && blocks[id] == s.env[id] && s.env[id] in s.req && sizes[id] == s.req[s.env[id]]
  }

  lemma TotalsPut(blocks: seq<int>, sizes: seq<int>, total: int, s: State, index: nat, size: int, h: Heap, p: int)
    requires Totals(blocks, sizes, total, s) && p !in s.req && index < |blocks|
    ensures |blocks| == |sizes|
    ensures
      var s' := State(h, s.env[index := p], s.req[p := size]);
      Totals(blocks[index := p], sizes[index := size], total + size, s')
  {
    assert Unfold(0);
    SumAdd(s.req, p, size);
  }

  lemma TotalsAlloc(blocks: seq<int>, sizes: seq<int>, total: int, s: State, limit: int, index: nat, size: int,
                    h: Heap, p: int) returns (s': State)
    requires StateOk(s) && s.heap.brk <= limit && Asked(s.heap, limit, size) && index < |blocks|
    requires Totals(blocks, sizes, total, s) && Malloced(s.heap, h, limit, size, p) && p != 0
    ensures |blocks| == |sizes| && Step(s, limit, Alloc(index, size)) == Some(s') && s'.heap == h && StateOk(s')
    ensures Totals(blocks[index := p], sizes[index := size], total + size, s') && h.brk <= limit
  {
    s' := State(h, s.env[index := p], s.req[p := size]);
    MallocedIs(s.heap, h, limit, size, p);
    StepIsRequest(s, limit, Alloc(index, size));
    AllocOk(s, limit, index, size);
    TotalsPut(blocks, sizes, total, s, index, size, h, p);
  }

  lemma TotalsRelease(blocks: seq<int>, sizes: seq<int>, total: int, s: State, limit: int, index: nat)
    returns (s': State)
    requires StateOk(s) && index in s.env && Totals(blocks, sizes, total, s)
    ensures index < |blocks| == |sizes| && blocks[index] == s.env[index]
    ensures 0 < blocks[index] && IsLive(s.heap.tiles, blocks[index])
    ensures Step(s, limit, Release(index)) == Some(s') && s'.heap == Free(s.heap, blocks[index]) && StateOk(s')
    ensures s'.heap.brk == s.heap.brk && 0 < sizes[index]
    ensures Totals(blocks, sizes, total - sizes[index], s')
  {
    var p := s.env[index];
    s' := State(Free(s.heap, p), s.env - {index}, s.req - {p});
    StepIsRequest(s, limit, Release(index));
    ReleaseOk(s, index);
    assert Unfold(0);
    SumRemove(s.req, p);
  }

  /** Everything the trace loop of eval_mm_util keeps true. */
  ghost predicate Using(mm: Allocator, blocks: array<int>, sizes: array<int>, total: int, s: State)
    reads mm, mm.Repr(), blocks, sizes
  {
    forall i {:trigger Unfold(i)} :: Unfold(i) ==>
      && mm.Valid() && mm.ranges == null && s.heap == mm.heap && StateOk(s) && s.heap.brk <= mm.mem.limit
      && Totals(blocks[..], sizes[..], total, s)
  }

  lemma UsingIs(mm: Allocator, blocks: array<int>, sizes: array<int>, total: int, s: State)
    requires Using(mm, blocks, sizes, total, s)
    ensures mm.Valid() && mm.ranges == null && s.heap == mm.heap && StateOk(s) && s.heap.brk <= mm.mem.limit
    ensures Totals(blocks[..], sizes[..], total, s)
  {
    assert Unfold(0);
  }

  lemma FoldUsing(mm: Allocator, blocks: array<int>, sizes: array<int>, total: int, s: State)
    requires mm.Valid() && mm.ranges == null && s.heap == mm.heap && StateOk(s) && s.heap.brk <= mm.mem.limit
    requires Totals(blocks[..], sizes[..], total, s)
    ensures Using(mm, blocks, sizes, total, s)
  {
  }

  /** The ALLOC case of eval_mm_util. */
  method UtilAlloc(mm: Allocator, blocks: array<int>, sizes: array<int>, index: nat, size: int, total: int,
                   maxTotal: int, ghost s: State)
    returns (ok: bool, total': int, maxTotal': int, ghost s': State)
    requires Using(mm, blocks, sizes, total, s) && mm.ranges == null
    requires Asked(s.heap, mm.mem.limit, size)
    requires index < blocks.Length == sizes.Length
    requires blocks as object !in mm.Repr() && sizes as object !in mm.Repr() && blocks != sizes
    modifies mm`heap, mm.mem`brk, mm.mem`image, mm.mem.words, blocks, sizes
    ensures mm.ranges == null
    ensures ok <==> Step(s, mm.mem.limit, Alloc(index, size)).Some?
    ensures ok ==> Step(s, mm.mem.limit, Alloc(index, size)) == Some(s') && Using(mm, blocks, sizes, total', s')
    ensures ok ==> maxTotal' == if total' > maxTotal then total' else maxTotal
  {
    ghost var limit, bs, zs := mm.mem.limit, blocks[..], sizes[..];
    UsingIs(mm, blocks, sizes, total, s);
    s', total', maxTotal' := s, total, maxTotal;
    var p := mm.MmMalloc(size);
    ok := p != 0;
    if !ok {
      AllocFails(s, limit, index, size, mm.heap);
      return;
    }
    blocks[index] := p;
    sizes[index] := size;
    assert blocks[..] == bs[index := p] && sizes[..] == zs[index := size];
    s' := TotalsAlloc(bs, zs, total, s, limit, index, size, mm.heap, p);
    total' := total + size;
    maxTotal' := if total' > maxTotal then total' else maxTotal;
    FoldUsing(mm, blocks, sizes, total', s');
  }

  /** The FREE case of eval_mm_util. */
  method UtilFree(mm: Allocator, blocks: array<int>, sizes: array<int>, index: nat, total: int, ghost s: State)
    returns (total': int, ghost s': State)
    requires Using(mm, blocks, sizes, total, s) && mm.ranges == null
    requires index in s.env && index < blocks.Length == sizes.Length
    requires blocks as object !in mm.Repr() && sizes as object !in mm.Repr() && blocks != sizes
    modifies mm`heap, mm.mem`image, mm.mem.words
    ensures mm.ranges == null && total' <= total
    ensures Step(s, mm.mem.limit, Release(index)) == Some(s') && Using(mm, blocks, sizes, total', s')
  {
    ghost var limit, bs, zs := mm.mem.limit, blocks[..], sizes[..];
    UsingIs(mm, blocks, sizes, total, s);
    s' := TotalsRelease(bs, zs, total, s, limit, index);
    var size := sizes[index];
    var p := blocks[index];
    total' := total - size;
    mm.MmFree(p);
    assert blocks[..] == bs && sizes[..] == zs;
    FoldUsing(mm, blocks, sizes, total', s');
  }

  /** One request of eval_mm_util; false when it calls app_error. */
  method UtilRequest(mm: Allocator, blocks: array<int>, sizes: array<int>, op: Op, total: int, maxTotal: int,
                     ghost s: State)
    returns (ok: bool, total': int, maxTotal': int, ghost s': State)
    requires Using(mm, blocks, sizes, total, s) && mm.ranges == null && total <= maxTotal
    requires Fits(op, s.env.Keys) && Serves(s, mm.mem.limit, op)
    requires op.index < blocks.Length == sizes.Length
    requires blocks as object !in mm.Repr() && sizes as object !in mm.Repr() && blocks != sizes
    modifies mm`heap, mm.mem`brk, mm.mem`image, mm.mem.words, blocks, sizes
    ensures mm.ranges == null
    ensures ok <==> Step(s, mm.mem.limit, op).Some?
    ensures ok ==> Step(s, mm.mem.limit, op) == Some(s') && Using(mm, blocks, sizes, total', s')
    ensures ok ==> maxTotal' == if total' > maxTotal then total' else maxTotal
  {
    match op {
      case Alloc(index, size) =>
        ServesAsked(s, mm.mem.limit, index, size);
        ok, total', maxTotal', s' := UtilAlloc(mm, blocks, sizes, index, size, total, maxTotal, s);
      case Release(index) =>
        total', s' := UtilFree(mm, blocks, sizes, index, total, s);
        ok, maxTotal' := true, maxTotal;
      case Resize(index, size) =>
        var newp := mm.MmRealloc(blocks[index], size);
        ok, total', maxTotal', s' := newp != 0, total, maxTotal, s;
        StepIsRequest(s, mm.mem.limit, op);
    }
  }

  /** What the peak is after one more request. */
  lemma PeakNext(s: State, limit: int, ops: seq<Op>, n: nat, r: State, blocks: seq<int>, sizes: seq<int>, total: int)
    requires n < |ops| && RunTo(s, limit, ops, n).Some? && RunTo(s, limit, ops, n + 1) == Some(r)
    requires Totals(blocks, sizes, total, r)
    ensures
      var before := Peak(s, limit, ops, n);
      PeaksAt(s, limit, ops, n + 1, r, if total > before then total else before)
  {
    TotalIs(blocks, sizes, total, r);
  }

  /** One round of the trace loop of eval_mm_util. */
  method UtilRound(mm: Allocator, blocks: array<int>, sizes: array<int>, ops: seq<Op>, i: nat, total: int,
                   maxTotal: int, ghost s0: State, ghost s: State)
    returns (ok: bool, total': int, maxTotal': int, ghost s': State)
    requires Using(mm, blocks, sizes, total, s) && mm.ranges == null
    requires StateOk(s0) && s0.heap.brk <= mm.mem.limit && s0.env == map[]
    requires blocks.Length == sizes.Length
    requires WellFormed(ops, blocks.Length) && Unwrapped(s0, mm.mem.limit, ops, |ops|)
    requires blocks as object !in mm.Repr() && sizes as object !in mm.Repr() && blocks != sizes
    requires i < |ops| && PeaksAt(s0, mm.mem.limit, ops, i, s, maxTotal) && total <= maxTotal
    modifies mm`heap, mm.mem`brk, mm.mem`image, mm.mem.words, blocks, sizes
    ensures mm.ranges == null
    ensures !ok ==> RunTo(s0, mm.mem.limit, ops, |ops|).None?
    ensures ok ==> Using(mm, blocks, sizes, total', s') && total' <= maxTotal'
    ensures ok ==> PeaksAt(s0, mm.mem.limit, ops, i + 1, s', maxTotal')
  {
    ghost var limit := mm.mem.limit;
    RunOk(s0, limit, ops, blocks.Length, i);
    assert FitsHere(ops, blocks.Length, i);
    ServesReached(s0, limit, ops, i);
    RunNext(s0, limit, ops, i, s);
    ok, total', maxTotal', s' := UtilRequest(mm, blocks, sizes, ops[i], total, maxTotal, s);
    if ok {
      UsingIs(mm, blocks, sizes, total', s');
      PeakNext(s0, limit, ops, i, s', blocks[..], sizes[..], total');
    } else {
      RunStops(s0, limit, ops, i + 1, |ops|);
    }
  }

  /** The first n requests succeed and lead to r, and most is the peak payload. */
  ghost predicate PeaksAt(s: State, limit: int, ops: seq<Op>, n: nat, r: State, most: int)
    requires n <= |ops|
  {
    RunTo(s, limit, ops, n) == Some(r) && most == Peak(s, limit, ops, n)
  }

  /** The trace loop of eval_mm_util: None when it calls app_error. */
  method UtilTrace(mm: Allocator, blocks: array<int>, sizes: array<int>, ops: seq<Op>, ghost s0: State)
    returns (r: Option<int>)
    requires Using(mm, blocks, sizes, 0, s0) && mm.ranges == null && s0.env == map[] && s0.req == map[]
    requires blocks.Length == sizes.Length
    requires WellFormed(ops, blocks.Length) && Unwrapped(s0, mm.mem.limit, ops, |ops|)
    requires blocks as object !in mm.Repr() && sizes as object !in mm.Repr() && blocks != sizes
    modifies mm`heap, mm.mem`brk, mm.mem`image, mm.mem.words, blocks, sizes
    ensures r.Some? <==> RunTo(s0, mm.mem.limit, ops, |ops|).Some?
    ensures r.Some? ==>
      && r.value == Peak(s0, mm.mem.limit, ops, |ops|)
      && mm.Valid() && RunTo(s0, mm.mem.limit, ops, |ops|).value.heap == mm.heap
  {
    ghost var limit := mm.mem.limit;
    UsingIs(mm, blocks, sizes, 0, s0);
    ghost var s := s0;
    var total, maxTotal := 0, 0;
    var i := 0;
    while i < |ops|
      invariant 0 <= i <= |ops|
      invariant mm.ranges == null && Using(mm, blocks, sizes, total, s)
      invariant total <= maxTotal && PeaksAt(s0, limit, ops, i, s, maxTotal)
    {
      var ok;
      ok, total, maxTotal, s := UtilRound(mm, blocks, sizes, ops, i, total, maxTotal, s0, s);
      if !ok {
        return None;
      }
      i := i + 1;
    }
    UsingIs(mm, blocks, sizes, total, s);
    return Some(maxTotal);
  }

  /** eval_mm_util: the peak payload over the final heap size, at most 1; None when a request is a
      REALLOC or runs out of memory and the driver exits. */
  method EvalMmUtil(mm: Allocator, blocks: array<int>, sizes: array<int>, ops: seq<Op>) returns (r: Option<real>)
    requires mm.mem.Valid()
    requires blocks.Length == sizes.Length && WellFormed(ops, blocks.Length)
    requires Unwrapped(Start(mm.mem.start), mm.mem.limit, ops, |ops|)
    requires blocks as object != mm.mem.words && sizes as object != mm.mem.words && blocks != sizes
    modifies mm, mm.mem`brk, mm.mem`image, mm.mem.words, blocks, sizes
    ensures r.Some? <==> forall i :: 0 <= i < |ops| ==> !RunsOut(Start(mm.mem.start), mm.mem.limit, ops, i)
    ensures r.Some? ==> RunTo(Start(mm.mem.start), mm.mem.limit, ops, |ops|).Some?
    ensures r.Some? ==>
      var grown := RunTo(Start(mm.mem.start), mm.mem.limit, ops, |ops|).value.heap.brk - mm.mem.start;
      && 0 < grown
      && r.value == (Peak(Start(mm.mem.start), mm.mem.limit, ops, |ops|) as real) / (grown as real)
      && 0.0 <= r.value <= 1.0
  {
    mm.mem.ResetBrk();
    var init := mm.MmInit(null);
    if init < 0 {
      return None;
    }
    ghost var s0, limit := Start(mm.mem.start), mm.mem.limit;
    RunFailsIff(s0, limit, ops, blocks.Length, |ops|);
    var peak := UtilTrace(mm, blocks, sizes, ops, s0);
    if peak.None? {
      return None;
    }
    PeakFitsHeap(s0, limit, ops, blocks.Length, |ops|);
    RunOk(s0, limit, ops, blocks.Length, |ops|);
    r := Some((peak.value as real) / (mm.mem.HeapSize() as real));
    RatioBounds(peak.value, mm.mem.HeapSize());
  }

  lemma TotalIs(blocks: seq<int>, sizes: seq<int>, total: int, s: State)
    requires Totals(blocks, sizes, total, s)
    ensures total == Sum(s.req)
  {
    assert Unfold(0);
  }

  lemma RatioBounds(a: int, b: int)
    requires 0 <= a <= b && 0 < b
    ensures 0.0 <= (a as real) / (b as real) <= 1.0
  {
  }
}
