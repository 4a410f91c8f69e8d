/** What mdriver.c's trace loops do to the allocator and to the driver's own tables. */
module Traces {
  import opened Words
  import opened Tiles
  import opened Heaps
  import opened Mallocs
  import opened Memory
  import opened HeapTheorems
  import opened RangeLists
  import opened Bytes
  import opened HeapWords
  import opened Folds
  import opened Steps

  /** A trace request; Resize is REALLOC. */
  datatype Op = Alloc(index: nat, size: int) | Release(index: nat) | Resize(index: nat, size: int)

  datatype Option<+T> = None | Some(value: T)

  /** env: the block each live id names. req: the size requested for each block in use, those
      whose id was reused included. */
  datatype State = State(heap: Heap, env: map<nat, int>, req: map<int, int>)

  /** The ids live after n requests. */
  function LiveIds(ops: seq<Op>, n: nat): set<nat>
    requires n <= |ops|
  {
    if n == 0 then {}
    else match ops[n - 1]
      case Alloc(index, _) => LiveIds(ops, n - 1) + {index}
      case Release(index) => LiveIds(ops, n - 1) - {index}
      case Resize(_, _) => LiveIds(ops, n - 1)
  }

  /** Positive int sizes, ids below numIds, and only live ids are freed. */
  ghost predicate WellFormed(ops: seq<Op>, numIds: nat) {
    forall i {:trigger FitsHere(ops, numIds, i)} :: 0 <= i < |ops| ==> FitsHere(ops, numIds, i)
  }

  predicate FitsHere(ops: seq<Op>, numIds: nat, i: nat)
    requires i < |ops|
  {
    ops[i].index < numIds && Fits(ops[i], LiveIds(ops, i))
  }

  /** The request is one a well-formed trace may make when the ids in `live` are live. */
  predicate Fits(op: Op, live: set<nat>) {
    match op
    case Alloc(_, size) => 0 < size < TWO_31
    case Release(index) => index in live
    case Resize(_, _) => true
  }

  /** The size is a positive int and mm_malloc can serve it: a free block fits, or growing the heap
      does not wrap around. */
  ghost predicate Asked(h: Heap, limit: int, size: int) {
    0 < size < TWO_31 && Servable(h, limit, size)
  }

  /** One request; None when mm_malloc returns NULL, as the stub mm_realloc always does. */
  ghost function Request(s: State, limit: int, op: Op): Option<State> {
    match op
    case Alloc(index, size) =>
      var (h, p) := Malloc(s.heap, limit, size);
      if p == 0 then None else Some(State(h, s.env[index := p], s.req[p := size]))
    case Release(index) =>
      if index in s.env then
        var p := s.env[index];
        Some(State(Free(s.heap, p), s.env - {index}, s.req - {p}))
      else None
    case Resize(_, _) => None
  }

  /** r is Request's result, folded. */
  ghost predicate IsStep(s: State, limit: int, op: Op, r: Option<State>) {
    forall i {:trigger Unfold(i)} :: Unfold(i) ==> r == Request(s, limit, op)
  }

  /** Request, unfolded on demand only. */
  ghost function Step(s: State, limit: int, op: Op): Option<State> {
    assert IsStep(s, limit, op, Request(s, limit, op));
    var r :| IsStep(s, limit, op, r);
    r
  }

  lemma StepIsRequest(s: State, limit: int, op: Op)
    ensures Step(s, limit, op) == Request(s, limit, op)
  {
    assert Unfold(0);
  }

  /** The first n requests. */
  ghost function RunTo(s: State, limit: int, ops: seq<Op>, n: nat): Option<State>
    requires n <= |ops|
  {
    if n == 0 then Some(s)
    else match RunTo(s, limit, ops, n - 1)
      case None => None
      case Some(r) => Step(r, limit, ops[n - 1])
  }

  /** mm_malloc can serve the request. */
  ghost predicate Serves(s: State, limit: int, op: Op) {
    forall u {:trigger Unfold(u)} :: Unfold(u) ==> op.Alloc? ==> Servable(s.heap, limit, op.size)
  }

  lemma ServesAsked(s: State, limit: int, index: nat, size: int)
    requires Serves(s, limit, Alloc(index, size)) && 0 < size < TWO_31
    ensures Asked(s.heap, limit, size)
  {
    assert Unfold(0);
  }

  /** It can serve request i of the run, if that is reached. */
  ghost predicate ServesAt(s: State, limit: int, ops: seq<Op>, i: nat)
    requires i < |ops|
  {
    forall u {:trigger Unfold(u)} :: Unfold(u) ==>
      var r := RunTo(s, limit, ops, i);
      r.Some? ==> Serves(r.value, limit, ops[i])
  }

  /** It can serve each of the first n requests in the state the run has reached. */
  ghost predicate Unwrapped(s: State, limit: int, ops: seq<Op>, n: nat)
    requires n <= |ops|
  {
    forall u {:trigger Unfold(u)} :: Unfold(u) ==>
      forall i {:trigger ServesAt(s, limit, ops, i)} :: 0 <= i < n ==> ServesAt(s, limit, ops, i)
  }

  lemma ServesReached(s: State, limit: int, ops: seq<Op>, i: nat)
    requires i < |ops| && ServesAt(s, limit, ops, i) && RunTo(s, limit, ops, i).Some?
    ensures Serves(RunTo(s, limit, ops, i).value, limit, ops[i])
  {
    assert Unfold(0);
  }

  lemma RunNext(s: State, limit: int, ops: seq<Op>, n: nat, r: State)
    requires n < |ops| && RunTo(s, limit, ops, n) == Some(r)
    ensures RunTo(s, limit, ops, n + 1) == Step(r, limit, ops[n])
  {
  }

  /** The requested sizes fit the blocks in use, one each. */
  ghost predicate Sized(t: Tiling, req: map<int, int>) {
    && req.Keys == Live(t).Keys
    && forall a :: a in req ==> a in t && 0 < req[a] && req[a] + 8 <= t[a].size
  }

  ghost predicate Named(env: map<nat, int>, req: map<int, int>) {
    && (forall i :: i in env ==> env[i] in req)
    && (forall i, j :: i in env && j in env && i != j ==> env[i] != env[j])
  }

  /** The invariant of a run. */
  ghost predicate StateOk(s: State) {
    forall i {:trigger Unfold(i)} :: Unfold(i) ==>
      && Ok(s.heap, 0)
      && Sized(s.heap.tiles, s.req)
      && Named(s.env, s.req)
  }

  lemma StateBlock(s: State, a: int)
    requires StateOk(s) && a in s.req
    ensures IsLive(s.heap.tiles, a) && a % 8 == 0 && s.heap.Lo() <= a && 0 < a
    ensures 0 < s.req[a] && a + s.req[a] + 8 <= a + s.heap.tiles[a].size <= s.heap.brk
  {
    assert Unfold(0);
    assert a in Live(s.heap.tiles);
  }

  lemma AllocSized(t: Tiling, t': Tiling, req: map<int, int>, p: int, size: int)
    requires Sized(t, req) && 0 < size
    requires p in t' && size + 8 <= t'[p].size && Live(t') == Live(t)[p := t'[p].size]
    ensures Sized(t', req[p := size])
  {
    forall a | a in req[p := size]
      ensures a in t' && req[p := size][a] + 8 <= t'[a].size
    {
      assert a in Live(t');
      assert a != p ==> a in Live(t) && Live(t)[a] == t[a].size;
    }
  }

  lemma ReleaseSized(t: Tiling, t': Tiling, req: map<int, int>, p: int)
    requires Sized(t, req) && Live(t') == Live(t) - {p}
    ensures Sized(t', req - {p})
  {
    forall a | a in req - {p}
      ensures a in t' && req[a] + 8 <= t'[a].size
    {
      assert a in Live(t) && Live(t)[a] == t[a].size;
      assert a in Live(t') && Live(t')[a] == t'[a].size;
    }
  }

  lemma AllocNamed(env: map<nat, int>, req: map<int, int>, index: nat, p: int, size: int)
    requires Named(env, req) && p !in req
    ensures Named(env[index := p], req[p := size])
  {
  }

  /** The part of AllocOk that is about the heap. */
  lemma AllocHeapOk(h: Heap, limit: int, req: map<int, int>, size: int)
    requires Ok(h, 0) && Sized(h.tiles, req) && h.brk <= limit && Asked(h, limit, size)
    ensures
      var (h', p) := Malloc(h, limit, size);
      && (p == 0 <==> OutOfMemory(h, limit, size))
      && Ok(h', 0) && h'.base == h.base && h.brk <= h'.brk <= limit
      && (p != 0 ==> p !in req && Sized(h'.tiles, req[p := size]))
  {
    MallocOk(h, limit, size);
    var (h', p) := Malloc(h, limit, size);
    if p != 0 {
      assert p !in Live(h.tiles);
      AllocSized(h.tiles, h'.tiles, req, p, size);
    }
  }

  /** mm_malloc's block is new to the driver's tables. */
  lemma AllocOk(s: State, limit: int, index: nat, size: int)
    requires StateOk(s) && s.heap.brk <= limit && Asked(s.heap, limit, size)
    ensures
      var (h, p) := Malloc(s.heap, limit, size);
      && (p == 0 <==> OutOfMemory(s.heap, limit, size))
      && (p != 0 ==>
        && p !in s.req
        && StateOk(State(h, s.env[index := p], s.req[p := size]))
        && h.base == s.heap.base && s.heap.brk <= h.brk <= limit)
  {
    assert Unfold(0);
    AllocHeapOk(s.heap, limit, s.req, size);
    var (h, p) := Malloc(s.heap, limit, size);
    if p != 0 {
      AllocNamed(s.env, s.req, index, p, size);
    }
  }

  lemma ReleaseOk(s: State, index: nat)
    requires StateOk(s) && index in s.env
    ensures
      var p := s.env[index];
      && p in s.req && 0 < p && IsLive(s.heap.tiles, p)
      && StateOk(State(Free(s.heap, p), s.env - {index}, s.req - {p}))
      && Free(s.heap, p).base == s.heap.base && Free(s.heap, p).brk == s.heap.brk
  {
    assert Unfold(0);
    var p := s.env[index];
    StateBlock(s, p);
    FreeOk(s.heap, p);
    ReleaseSized(s.heap.tiles, Free(s.heap, p).tiles, s.req, p);
  }

  /** What a step keeps, as one fact about the states before and after. */
  ghost predicate StepKeeps(s: State, s': State, limit: int) {
    && StateOk(s')
    && s'.heap.base == s.heap.base
    && s.heap.brk <= s'.heap.brk <= limit
  }

  lemma StepOk(s: State, limit: int, op: Op)
    requires StateOk(s) && s.heap.brk <= limit && Fits(op, s.env.Keys) && Serves(s, limit, op)
    ensures
      var r := Step(s, limit, op);
      && (r.Some? ==>
            && StepKeeps(s, r.value, limit)
            && r.value.env.Keys == (if op.Alloc? then s.env.Keys + {op.index} else s.env.Keys - {op.index}))
      && (r.None? <==> op.Resize? || (op.Alloc? && OutOfMemory(s.heap, limit, op.size)))
  {
    StepIsRequest(s, limit, op);
    match op {
      case Alloc(index, size) =>
        ServesAsked(s, limit, index, size);
        AllocOk(s, limit, index, size);
      case Release(index) =>
        ReleaseOk(s, index);
      case Resize(_, _) =>
    }
  }

  /** If the first n requests succeed, the invariant holds and exactly the live ids are known. */
  ghost predicate GoodTo(s: State, limit: int, ops: seq<Op>, n: nat)
    requires n <= |ops|
  {
    forall i {:trigger Unfold(i)} :: Unfold(i) ==>
      var r := RunTo(s, limit, ops, n);
      r.Some? ==> StepKeeps(s, r.value, limit) && r.value.env.Keys == LiveIds(ops, n)
  }

  lemma GoodNext(s: State, limit: int, ops: seq<Op>, numIds: nat, n: nat, i: nat)
    requires WellFormed(ops, numIds) && i < n <= |ops| && Unwrapped(s, limit, ops, n)
    requires GoodTo(s, limit, ops, i)
    ensures GoodTo(s, limit, ops, i + 1)
  {
    var before, after := RunTo(s, limit, ops, i), RunTo(s, limit, ops, i + 1);
    if after.Some? {
      assert before.Some? && after == Step(before.value, limit, ops[i]);
      ServesReached(s, limit, ops, i);
      assert StepKeeps(s, before.value, limit) && before.value.env.Keys == LiveIds(ops, i) by {
        assert Unfold(0);
      }
      assert FitsHere(ops, numIds, i);
      StepOk(before.value, limit, ops[i]);
    }
  }

  lemma GoodStart(s: State, limit: int, ops: seq<Op>)
    requires StateOk(s) && s.env == map[] && s.heap.brk <= limit
    ensures GoodTo(s, limit, ops, 0)
  {
    assert RunTo(s, limit, ops, 0) == Some(s);
  }

  lemma {:induction false} GoodAll(s: State, limit: int, ops: seq<Op>, numIds: nat, n: nat, i: nat)
    requires StateOk(s) && s.env == map[] && s.heap.brk <= limit
    requires WellFormed(ops, numIds) && i <= n <= |ops| && Unwrapped(s, limit, ops, n)
    ensures GoodTo(s, limit, ops, i)
    decreases i
  {
    if i == 0 {
      GoodStart(s, limit, ops);
    } else {
      GoodAll(s, limit, ops, numIds, n, i - 1);
      GoodNext(s, limit, ops, numIds, n, i - 1);
    }
  }

  /** Every state of a well-formed run satisfies the invariant and knows exactly the live ids. */
  lemma RunOk(s: State, limit: int, ops: seq<Op>, numIds: nat, n: nat)
    requires StateOk(s) && s.env == map[] && s.heap.brk <= limit
    requires WellFormed(ops, numIds) && n <= |ops| && Unwrapped(s, limit, ops, n)
    ensures
      var r := RunTo(s, limit, ops, n);
      r.Some? ==> StepKeeps(s, r.value, limit) && r.value.env.Keys == LiveIds(ops, n)
  {
    GoodAll(s, limit, ops, numIds, n, n);
    assert Unfold(0);
  }

  /** Growing even a full heap for the request would not wrap around. */
  predicate Roomy(op: Op, limit: int) {
    op.Alloc? ==> NoWrap(limit, AsInt32(ExtendBytes(AdjustedSize(op.size))))
  }

  lemma RoomyNext(s: State, limit: int, ops: seq<Op>, numIds: nat, n: nat)
    requires StateOk(s) && s.env == map[] && s.heap.brk <= limit
    requires WellFormed(ops, numIds) && n < |ops| && Unwrapped(s, limit, ops, n) && Roomy(ops[n], limit)
    ensures Unwrapped(s, limit, ops, n + 1)
  {
    RunOk(s, limit, ops, numIds, n);
    if RunTo(s, limit, ops, n).Some? {
      assert FitsHere(ops, numIds, n);
    }
  }

  /** What can be said before the run: a trace whose requests would not wrap even in a full heap can
      be served all through. */
  lemma {:induction false} RoomyUnwrapped(s: State, limit: int, ops: seq<Op>, numIds: nat, n: nat)
    requires StateOk(s) && s.env == map[] && s.heap.brk <= limit
    requires WellFormed(ops, numIds) && n <= |ops| && forall i :: 0 <= i < n ==> Roomy(ops[i], limit)
    ensures Unwrapped(s, limit, ops, n)
  {
    if n > 0 {
      RoomyUnwrapped(s, limit, ops, numIds, n - 1);
      RoomyNext(s, limit, ops, numIds, n - 1);
    }
  }

  /** Request i of the run is a REALLOC, or finds no free block that fits and no room to grow. */
  ghost predicate RunsOut(s: State, limit: int, ops: seq<Op>, i: nat)
    requires i < |ops|
  {
    forall u {:trigger Unfold(u)} :: Unfold(u) ==>
      && RunTo(s, limit, ops, i).Some?
      && (ops[i].Resize? || (ops[i].Alloc? && OutOfMemory(RunTo(s, limit, ops, i).value.heap, limit, ops[i].size)))
  }

  lemma NextFails(s: State, limit: int, ops: seq<Op>, numIds: nat, n: nat)
    requires StateOk(s) && s.env == map[] && s.heap.brk <= limit
    requires WellFormed(ops, numIds) && n < |ops| && Unwrapped(s, limit, ops, n + 1)
    requires RunTo(s, limit, ops, n).Some?
    ensures RunTo(s, limit, ops, n + 1).None? <==> RunsOut(s, limit, ops, n)
  {
    ServesReached(s, limit, ops, n);
    RunOk(s, limit, ops, numIds, n);
    assert FitsHere(ops, numIds, n);
    StepOk(RunTo(s, limit, ops, n).value, limit, ops[n]);
    assert Unfold(0);
  }

  lemma {:induction false} RunStops(s: State, limit: int, ops: seq<Op>, i: nat, n: nat)
    requires i <= n <= |ops| && RunTo(s, limit, ops, i).None?
    ensures RunTo(s, limit, ops, n).None?
    decreases n - i
  {
    if i < n {
      RunStops(s, limit, ops, i + 1, n);
    }
  }

  /** A run that failed ran out at some request. */
  lemma {:induction false} FirstOut(s: State, limit: int, ops: seq<Op>, numIds: nat, n: nat) returns (i: nat)
    requires StateOk(s) && s.env == map[] && s.heap.brk <= limit
    requires WellFormed(ops, numIds) && n <= |ops| && Unwrapped(s, limit, ops, n)
    requires RunTo(s, limit, ops, n).None?
    ensures i < n && RunsOut(s, limit, ops, i)
  {
    if RunTo(s, limit, ops, n - 1).None? {
      i := FirstOut(s, limit, ops, numIds, n - 1);
    } else {
      i := n - 1;
      NextFails(s, limit, ops, numIds, i);
    }
  }

  /** A run that runs out fails. */
  lemma OutFails(s: State, limit: int, ops: seq<Op>, numIds: nat, i: nat, n: nat)
    requires StateOk(s) && s.env == map[] && s.heap.brk <= limit
    requires WellFormed(ops, numIds) && i < n <= |ops| && Unwrapped(s, limit, ops, n)
    requires RunsOut(s, limit, ops, i)
    ensures RunTo(s, limit, ops, n).None?
  {
    assert RunTo(s, limit, ops, i).Some? by {
      assert Unfold(0);
    }
    NextFails(s, limit, ops, numIds, i);
    RunStops(s, limit, ops, i + 1, n);
  }

  /** A well-formed trace fails exactly when some request is a REALLOC, or finds no free block that
      fits and no room for the break to grow. */
  lemma RunFailsIff(s: State, limit: int, ops: seq<Op>, numIds: nat, n: nat)
    requires StateOk(s) && s.env == map[] && s.heap.brk <= limit
    requires WellFormed(ops, numIds) && n <= |ops| && Unwrapped(s, limit, ops, n)
    ensures RunTo(s, limit, ops, n).None? <==> exists i :: 0 <= i < n && RunsOut(s, limit, ops, i)
  {
    if RunTo(s, limit, ops, n).None? {
      var _ := FirstOut(s, limit, ops, numIds, n);
    } else {
      forall i | 0 <= i < n
        ensures !RunsOut(s, limit, ops, i)
      {
        if RunsOut(s, limit, ops, i) {
          OutFails(s, limit, ops, numIds, i, n);
        }
      }
    }
  }

  // ---- the range list ----

  /** The extents on the driver's list are exactly the payloads in use. */
  ghost predicate Matches(ext: seq<(int, int)>, req: map<int, int>) {
    && DistinctLo(ext)
    && forall e :: e in ext <==> e.0 in req && e.1 == e.0 + req[e.0] - 1
  }

  lemma MatchesPush(ext: seq<(int, int)>, req: map<int, int>, p: int, size: int)
    requires Matches(ext, req) && p !in req
    ensures Matches([(p, p + size - 1)] + ext, req[p := size])
  {
    var e' := [(p, p + size - 1)] + ext;
    assert forall i :: 0 <= i < |ext| ==> ext[i] in ext;
    forall e
      ensures e in e' <==> e.0 in req[p := size] && e.1 == e.0 + req[p := size][e.0] - 1
    {
      assert e in e' <==> e == (p, p + size - 1) || e in ext;
    }
  }

  lemma MatchesRemove(ext: seq<(int, int)>, req: map<int, int>, p: int)
    requires Matches(ext, req)
    ensures Matches(WithoutLo(ext, p), req - {p})
  {
    WithoutLoKeeps(ext, p);
  }

  /** The payloads in use are 8-aligned, inside the heap and pairwise apart. */
  lemma PayloadsApart(s: State, a: int, b: int)
    requires StateOk(s) && a in s.req && b in s.req && a != b
    ensures a % 8 == 0 && s.heap.base < a && a + s.req[a] <= s.heap.brk
    ensures a + s.req[a] <= b || b + s.req[b] <= a
  {
    StateBlock(s, a);
    StateBlock(s, b);
    assert Unfold(0);
  }

  /** A new block's payload overlaps no payload in use, contained or not. */
  lemma NewPayloadApart(s: State, limit: int, index: nat, size: int, a: int)
    requires StateOk(s) && s.heap.brk <= limit && Asked(s.heap, limit, size) && a in s.req
    requires Malloc(s.heap, limit, size).1 != 0
    ensures
      var p := Malloc(s.heap, limit, size).1;
      p + size <= a || a + s.req[a] <= p
  {
    AllocOk(s, limit, index, size);
    var (h, p) := Malloc(s.heap, limit, size);
    PayloadsApart(State(h, s.env[index := p], s.req[p := size]), p, a);
  }

  /** add_range accepts a new block. */
  lemma NewRangeAccepted(s: State, limit: int, size: int, ext: seq<(int, int)>)
    requires StateOk(s) && s.heap.brk <= limit && Asked(s.heap, limit, size) && Matches(ext, s.req)
    requires Malloc(s.heap, limit, size).1 != 0
    ensures
      var (h, p) := Malloc(s.heap, limit, size);
      && p % 8 == 0 && s.heap.base < p && p + size <= h.brk
      && forall e :: e in ext ==> !Hits(p, p + size - 1, e)
  {
    AllocOk(s, limit, 0, size);
    var (h, p) := Malloc(s.heap, limit, size);
    StateBlock(State(h, s.env[0 := p], s.req[p := size]), p);
    forall e | e in ext
      ensures !Hits(p, p + size - 1, e)
    {
      NewPayloadApart(s, limit, 0, size, e.0);
      StateBlock(s, e.0);
    }
  }

  // ---- what the payloads hold ----

  /** Every payload named by a live id is filled with the low byte of the id. */
  ghost predicate Filled(m: Image, s: State) {
    forall i {:trigger Unfold(i)} :: Unfold(i) ==>
      forall id, x :: id in s.env && s.env[id] in s.req && s.env[id] <= x < s.env[id] + s.req[s.env[id]] ==>
        ByteAt(m, x) == id % 0x100
  }

  /** m' is m with the n bytes from p on set to b. */
  ghost predicate IsMemset(m: Image, m': Image, p: int, n: int, b: int) {
    && (forall x {:trigger ByteAt(m', x)} :: ByteAt(m', x) == if p <= x < p + n then b else ByteAt(m, x))
    && (forall x {:trigger At(m', x)} :: x < p || p + n <= x ==> At(m', x) == At(m, x))
  }

  /** A payload that survives word by word survives byte by byte. */
  lemma BytesKept(m: Image, m': Image, t: Tiling, a: int, x: int)
    requires Kept(m, m', t) && IsLive(t, a) && a % 8 == 0 && a <= x < a + t[a].size - 8
    ensures ByteAt(m', x) == ByteAt(m, x)
  {
    assert a == 4 * (2 * (a / 8));
    WordInside(a, x);
    WordKept(m, m', t, a, WordOf(x));
    SameWord(m, m', x);
  }

  lemma WordKept(m: Image, m': Image, t: Tiling, a: int, w: int)
    requires Kept(m, m', t) && IsLive(t, a) && a <= w < a + t[a].size - 8
    ensures At(m', w) == At(m, w)
  {
    assert Unfold(0);
  }

  lemma FilledAlloc(m: Image, m1: Image, m2: Image, s: State, limit: int, index: nat, size: int)
    requires StateOk(s) && s.heap.brk <= limit && Asked(s.heap, limit, size)
    requires Malloc(s.heap, limit, size).1 != 0
    requires Filled(m, s) && Kept(m, m1, s.heap.tiles)
    requires IsMemset(m1, m2, Malloc(s.heap, limit, size).1, size, index % 0x100)
    ensures
      var (h, p) := Malloc(s.heap, limit, size);
      Filled(m2, State(h, s.env[index := p], s.req[p := size]))
  {
    var (h, p) := Malloc(s.heap, limit, size);
    var s' := State(h, s.env[index := p], s.req[p := size]);
    AllocOk(s, limit, index, size);
    forall id, x | id in s'.env && s'.env[id] in s'.req && s'.env[id] <= x < s'.env[id] + s'.req[s'.env[id]]
      ensures ByteAt(m2, x) == id % 0x100
    {
      if id != index {
        assert Named(s.env, s.req) by {
          assert Unfold(0);
        }
        FilledOther(m, m1, m2, s, limit, size, id, x);
      }
    }
  }

  lemma FilledOther(m: Image, m1: Image, m2: Image, s: State, limit: int, size: int, id: nat, x: int)
    requires StateOk(s) && s.heap.brk <= limit && Asked(s.heap, limit, size)
    requires Malloc(s.heap, limit, size).1 != 0
    requires Filled(m, s) && Kept(m, m1, s.heap.tiles)
    requires exists b :: IsMemset(m1, m2, Malloc(s.heap, limit, size).1, size, b)
    requires id in s.env && s.env[id] in s.req && s.env[id] <= x < s.env[id] + s.req[s.env[id]]
    ensures ByteAt(m2, x) == id % 0x100
  {
    assert Unfold(0);
    var a := s.env[id];
    StateBlock(s, a);
    NewPayloadApart(s, limit, id, size, a);
    BytesKept(m, m1, s.heap.tiles, a, x);
  }

  lemma FilledRelease(m: Image, m1: Image, s: State, index: nat)
    requires StateOk(s) && index in s.env
    requires Filled(m, s) && Kept(m, m1, Free(s.heap, s.env[index]).tiles)
    ensures
      var p := s.env[index];
      Filled(m1, State(Free(s.heap, p), s.env - {index}, s.req - {p}))
  {
    assert Unfold(0);
    var p := s.env[index];
    var s' := State(Free(s.heap, p), s.env - {index}, s.req - {p});
    ReleaseOk(s, index);
    forall id, x | id in s'.env && s'.env[id] in s'.req && s'.env[id] <= x < s'.env[id] + s'.req[s'.env[id]]
      ensures ByteAt(m1, x) == id % 0x100
    {
      StateBlock(s', s'.env[id]);
      BytesKept(m, m1, s'.heap.tiles, s'.env[id], x);
    }
  }

  // ---- every block in use keeps its payload ----

  /** The blocks in use both before, in t, and after, in t', keep their size and payload. */
  ghost predicate Survive(m: Image, m': Image, t: Tiling, t': Tiling) {
    forall i {:trigger Unfold(i)} :: Unfold(i) ==>
      forall a {:trigger IsLive(t', a)} :: IsLive(t, a) && IsLive(t', a) ==> BlockKept(m, m', t, t', a)
  }

  ghost predicate BlockKept(m: Image, m': Image, t: Tiling, t': Tiling, a: int) {
    a in t && a in t' && t'[a] == t[a] && forall w :: a <= w < a + t[a].size - 8 ==> At(m', w) == At(m, w)
  }

  /** mm_malloc and the memset of its block. */
  lemma SurviveAlloc(m: Image, m1: Image, m2: Image, s: State, limit: int, index: nat, size: int)
    requires StateOk(s) && s.heap.brk <= limit && Asked(s.heap, limit, size)
    requires Malloc(s.heap, limit, size).1 != 0
    requires Kept(m, m1, s.heap.tiles)
    requires IsMemset(m1, m2, Malloc(s.heap, limit, size).1, size, index % 0x100)
    ensures Survive(m, m2, s.heap.tiles, Malloc(s.heap, limit, size).0.tiles)
  {
    var (h, p) := Malloc(s.heap, limit, size);
    assert Ok(s.heap, 0) by {
      assert Unfold(0);
    }
    forall a | IsLive(s.heap.tiles, a) && IsLive(h.tiles, a)
      ensures BlockKept(m, m2, s.heap.tiles, h.tiles, a)
    {
      NewBlockApart(s.heap, limit, size, a);
      forall w | a <= w < a + s.heap.tiles[a].size - 8
        ensures At(m2, w) == At(m, w)
      {
        WordKept(m, m1, s.heap.tiles, a, w);
      }
    }
  }

  /** A new payload lies outside every block in use, and those stay as they are. */
  lemma NewBlockApart(h: Heap, limit: int, size: int, a: int)
    requires Ok(h, 0) && h.brk <= limit && Asked(h, limit, size) && IsLive(h.tiles, a)
    requires Malloc(h, limit, size).1 != 0
    ensures
      var (h', p) := Malloc(h, limit, size);
      IsLive(h'.tiles, a) && h'.tiles[a] == h.tiles[a] && (p + size <= a || a + h.tiles[a].size <= p)
  {
    MallocOk(h, limit, size);
    var (h', p) := Malloc(h, limit, size);
    LiveSame(h.tiles, h'.tiles, a);
    ApartIn(h', p, a);
  }

  lemma LiveSame(t: Tiling, t': Tiling, a: int)
    requires IsLive(t, a) && a in Live(t') && Live(t')[a] == Live(t)[a]
    ensures IsLive(t', a) && t'[a] == t[a]
  {
    assert a in Live(t);
  }

  lemma ApartIn(h: Heap, p: int, a: int)
    requires Ok(h, 0) && p in h.tiles && a in h.tiles && p != a
    ensures p + h.tiles[p].size <= a || a + h.tiles[a].size <= p
  {
  }

  /** mm_free. */
  lemma SurviveFree(m: Image, m': Image, h: Heap, p: int)
    requires Ok(h, 0) && IsLive(h.tiles, p) && Kept(m, m', Free(h, p).tiles)
    ensures Survive(m, m', h.tiles, Free(h, p).tiles)
  {
    FreeOk(h, p);
    var t := Free(h, p).tiles;
    forall a | IsLive(h.tiles, a) && IsLive(t, a)
      ensures BlockKept(m, m', h.tiles, t, a)
    {
      assert a in Live(t);
      LiveSame(h.tiles, t, a);
      forall w | a <= w < a + h.tiles[a].size - 8
        ensures At(m', w) == At(m, w)
      {
        WordKept(m, m', t, a, w);
      }
    }
  }

  /** The words and the blocks between two requests. */
  datatype Snap = Snap(image: Image, tiles: Tiling)

  /** Every request of the run let the payloads in use survive. */
  ghost predicate History(snaps: seq<Snap>) {
    forall u {:trigger Unfold(u)} :: Unfold(u) ==>
      forall i {:trigger Link(snaps, i)} :: 0 <= i < |snaps| - 1 ==> Link(snaps, i)
  }

  ghost predicate Link(snaps: seq<Snap>, i: nat)
    requires i + 1 < |snaps|
  {
    Survive(snaps[i].image, snaps[i + 1].image, snaps[i].tiles, snaps[i + 1].tiles)
  }

  lemma HistoryNext(snaps: seq<Snap>, next: Snap)
    requires History(snaps) && snaps != []
    requires
      var last := snaps[|snaps| - 1];
      Survive(last.image, next.image, last.tiles, next.tiles)
    ensures History(snaps + [next])
  {
    assert Unfold(0);
    var more := snaps + [next];
    forall i: nat | i < |snaps|
      ensures Link(more, i)
    {
      if i < |snaps| - 1 {
        assert Link(snaps, i);
        assert more[i] == snaps[i] && more[i + 1] == snaps[i + 1];
      } else {
        assert more[i] == snaps[i] && more[i + 1] == next;
      }
    }
  }

  /** A block in use from one point of a run to another, named by an id or leaked, keeps its size
      and every word of its payload. */
  lemma {:induction false} PayloadSurvives(snaps: seq<Snap>, i: nat, j: nat, a: int)
    requires History(snaps) && i <= j < |snaps|
    requires forall k :: i <= k <= j ==> IsLive(snaps[k].tiles, a)
    ensures BlockKept(snaps[i].image, snaps[j].image, snaps[i].tiles, snaps[j].tiles, a)
    decreases j - i
  {
    if i < j {
      PayloadSurvives(snaps, i, j - 1, a);
      assert Unfold(0);
      assert Link(snaps, j - 1);
      assert IsLive(snaps[j].tiles, a) && IsLive(snaps[j - 1].tiles, a);
    }
  }

  /** snaps are the words and blocks before the first request and after each one so far. */
  ghost predicate Snapped(s: State, limit: int, ops: seq<Op>, snaps: seq<Snap>) {
    && 0 < |snaps| <= |ops| + 1
    && forall u {:trigger Unfold(u)} :: Unfold(u) ==>
         forall i {:trigger SnapAt(s, limit, ops, snaps, i)} :: 0 <= i < |snaps| ==> SnapAt(s, limit, ops, snaps, i)
  }

  ghost predicate SnapAt(s: State, limit: int, ops: seq<Op>, snaps: seq<Snap>, i: nat)
    requires i < |snaps| <= |ops| + 1
  {
    IsTilesAfter(s, limit, ops, i, snaps[i].tiles)
  }

  /** t holds the blocks after i requests, all of which succeed. */
  ghost predicate IsTilesAfter(s: State, limit: int, ops: seq<Op>, i: nat, t: Tiling)
    requires i <= |ops|
  {
    forall u {:trigger Unfold(u)} :: Unfold(u) ==>
      var r := RunTo(s, limit, ops, i);
      r.Some? && t == r.value.heap.tiles
  }

  lemma SnappedNext(s: State, limit: int, ops: seq<Op>, snaps: seq<Snap>, next: Snap)
    requires Snapped(s, limit, ops, snaps) && |snaps| <= |ops|
    requires IsTilesAfter(s, limit, ops, |snaps|, next.tiles)
    ensures Snapped(s, limit, ops, snaps + [next])
  {
    var more := snaps + [next];
    forall i: nat | i < |more|
      ensures SnapAt(s, limit, ops, more, i)
    {
      if i < |snaps| {
        assert SnapAt(s, limit, ops, snaps, i) by {
          assert Unfold(0);
        }
        assert more[i] == snaps[i];
      } else {
        assert more[i] == next;
      }
    }
  }

  /** The story of a run so far: it began with the words m0 and has come to the words m and the
      state r. */
  ghost predicate Story(s: State, limit: int, ops: seq<Op>, snaps: seq<Snap>, m0: Image, m: Image, r: State) {
    forall i {:trigger Unfold(i)} :: Unfold(i) ==>
      && History(snaps) && Snapped(s, limit, ops, snaps)
      && snaps[0].image == m0 && snaps[|snaps| - 1] == Snap(m, r.heap.tiles)
  }

  lemma StoryStart(s: State, limit: int, ops: seq<Op>, m: Image)
    ensures Story(s, limit, ops, [Snap(m, s.heap.tiles)], m, m, s)
  {
  }

  lemma StoryNext(s: State, limit: int, ops: seq<Op>, snaps: seq<Snap>, m0: Image, m: Image, r: State,
                  m': Image, r': State)
    requires Story(s, limit, ops, snaps, m0, m, r) && 0 < |snaps| <= |ops|
    requires RunTo(s, limit, ops, |snaps|) == Some(r') && Survive(m, m', r.heap.tiles, r'.heap.tiles)
    ensures Story(s, limit, ops, snaps + [Snap(m', r'.heap.tiles)], m0, m', r')
  {
    var next := Snap(m', r'.heap.tiles);
    assert IsTilesAfter(s, limit, ops, |snaps|, next.tiles) by {
      assert Unfold(0);
    }
    assert History(snaps) && Snapped(s, limit, ops, snaps) && snaps[0].image == m0 by {
      assert Unfold(0);
    }
    assert snaps[|snaps| - 1] == Snap(m, r.heap.tiles) by {
      assert Unfold(0);
    }
    HistoryNext(snaps, next);
    SnappedNext(s, limit, ops, snaps, next);
  }

  /** Writing inside a payload disturbs nothing of the allocator's. */
  lemma PayloadWrite(m: Image, m': Image, h: Heap, p: int, n: int, b: int)
    requires Whole(m, h, 0) && IsLive(h.tiles, p) && 0 <= n && n + 8 <= h.tiles[p].size
    requires IsMemset(m, m', p, n, b)
    ensures Whole(m', h, 0)
  {
    assert Unfold(0);
    assert TagOk(m, p, h.tiles[p]);
    assert TagOk(m', p, h.tiles[p]);
    forall a | a in h.tiles && p <= a < Next(h.tiles, p)
      ensures TagOk(m', a, h.tiles[a])
    {
      assert a == p;
    }
    RewrittenRep(m, m', h, {0}, h.tiles, p);
  }
}
