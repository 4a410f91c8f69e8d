/** linklab's bonus tracer: malloc, realloc, calloc and free over the block list, with the
    statistics they keep. The address the real allocator returns is a parameter. */
module MemTrace {
  import opened MemLists
  import opened Sums

  datatype Event =
    | Malloced(size: int, ptr: int)
    | Calloced(nmemb: int, size: int, ptr: int)
    | Realloced(from: int, size: int, ptr: int)
    | Freed(ptr: int)

  datatype Outcome = RealFree | IllegalFree | DoubleFree

  /** The tracer's table and counters; live is the blocks in use, those the real allocator has
      handed out and not been given back. */
  datatype Trace = Trace(table: map<int, Info>, nMalloc: int, allocTimes: int, freeSize: int, live: set<int>)

  const FRESH: Trace := Trace(map[], 0, 0, 0, {})

  /** What free does about ptr. */
  function Verdict(t: map<int, Info>, ptr: int): Outcome {
    if ptr !in t then IllegalFree else if t[ptr].cnt <= 0 then DoubleFree else RealFree
  }

  function SizeIn(t: map<int, Info>, ptr: int): int {
    if ptr in t then t[ptr].size else 0
  }

  /** The block a call hands out: NULL is none. */
  function HandedOut(ptr: int): set<int> {
    if ptr == 0 then {} else {ptr}
  }

  /** The block realloc gives back: none when it fails, which realloc to size 0 does not. */
  function GivenBack(p: int, size: int, ptr: int): set<int> {
    if ptr == 0 && size != 0 then {} else {p}
  }

  function Step(s: Trace, e: Event): Trace {
    match e
    case Malloced(size, ptr) =>
      Trace(Allocate(s.table, ptr, size), s.nMalloc + size, s.allocTimes + 1, s.freeSize, s.live + HandedOut(ptr))
    case Calloced(_, size, ptr) =>
      Trace(Allocate(s.table, ptr, size), s.nMalloc + size, s.allocTimes + 1, s.freeSize, s.live + HandedOut(ptr))
    case Realloced(p, size, ptr) =>
      Trace(Allocate(Deallocate(s.table, p), ptr, size), s.nMalloc + size, s.allocTimes + 1,
            s.freeSize + SizeIn(s.table, p), s.live - GivenBack(p, size, ptr) + HandedOut(ptr))
    case Freed(ptr) =>
      if Verdict(s.table, ptr).RealFree?
      then Trace(Deallocate(s.table, ptr), s.nMalloc, s.allocTimes, s.freeSize + s.table[ptr].size, s.live - {ptr})
      else s
  }

  function Run(es: seq<Event>): Trace {
    if es == [] then FRESH else Step(Run(es[..|es| - 1]), es[|es| - 1])
  }

  /** The real allocator returns neither NULL nor an address in use, and realloc is given one in
      use. */
  predicate Proper(s: Trace, e: Event) {
    match e
    case Malloced(_, ptr) => ptr != 0 && ptr !in s.live
    case Calloced(_, _, ptr) => ptr != 0 && ptr !in s.live
    case Realloced(p, _, ptr) => p in s.live && ptr != 0 && ptr !in s.live - {p}
    case Freed(_) => true
  }

  predicate ProperRun(es: seq<Event>) {
    es == [] || (ProperRun(es[..|es| - 1]) && Proper(Run(es[..|es| - 1]), es[|es| - 1]))
  }

  /** The recorded sizes of the blocks in use. */
  ghost function LiveSizes(t: map<int, Info>): map<int, int> {
    map p | p in t && t[p].cnt > 0 :: t[p].size
  }

  /** Counts are 0 or 1, 1 exactly for the blocks in use, and the byte counters differ by the
      recorded sizes of the blocks in use. */
  ghost predicate Sound(s: Trace) {
    && (forall p :: p in s.table ==> s.table[p].cnt == 0 || s.table[p].cnt == 1)
    && (forall p :: p in s.live <==> p in s.table && s.table[p].cnt == 1)
    && s.nMalloc - s.freeSize == Sum(LiveSizes(s.table))
  }

  lemma AllocateSums(t: map<int, Info>, ptr: int, size: int)
    requires ptr in t ==> t[ptr].cnt == 0
    ensures Sum(LiveSizes(Allocate(t, ptr, size))) == Sum(LiveSizes(t)) + size
  {
    assert LiveSizes(Allocate(t, ptr, size)) == LiveSizes(t)[ptr := size];
    SumAdd(LiveSizes(t), ptr, size);
  }

  lemma DeallocateSums(t: map<int, Info>, ptr: int)
    requires ptr in t && t[ptr].cnt == 1
    ensures Sum(LiveSizes(Deallocate(t, ptr))) == Sum(LiveSizes(t)) - t[ptr].size
  {
    assert LiveSizes(Deallocate(t, ptr)) == LiveSizes(t) - {ptr};
    SumRemove(LiveSizes(t), ptr);
  }

  lemma StepSound(s: Trace, e: Event)
    requires Sound(s) && Proper(s, e)
    ensures Sound(Step(s, e))
  {
    match e {
      case Malloced(size, ptr) =>
        AllocateSums(s.table, ptr, size);
      case Calloced(_, size, ptr) =>
        AllocateSums(s.table, ptr, size);
      case Realloced(p, size, ptr) =>
        DeallocateSums(s.table, p);
        AllocateSums(Deallocate(s.table, p), ptr, size);
      case Freed(ptr) =>
        if Verdict(s.table, ptr).RealFree? {
          DeallocateSums(s.table, ptr);
        }
    }
  }

  /** The tracer survives the event: realloc dereferences what find returns. */
  predicate Known(s: Trace, e: Event) {
    e.Realloced? ==> e.from in s.table
  }

  /** A returned NULL is counted like a block. */
  lemma NullCounts(s: Trace, e: Event)
    requires Sound(s) && 0 !in s.table && Known(s, e)
    requires !e.Freed? && e.ptr == 0
    ensures !Sound(Step(s, e))
  {
    var t := Step(s, e);
    assert t.table[0].cnt == 1;
    assert 0 !in t.live;
  }

  lemma ImproperCounts(s: Trace, e: Event)
    requires Sound(s) && 0 !in s.table && Known(s, e) && !Proper(s, e)
    ensures !Sound(Step(s, e))
  {
    var t := Step(s, e);
    match e {
      case Malloced(_, ptr) =>
        if ptr == 0 { NullCounts(s, e); } else { assert t.table[ptr].cnt == 2; }
      case Calloced(_, _, ptr) =>
        if ptr == 0 { NullCounts(s, e); } else { assert t.table[ptr].cnt == 2; }
      case Realloced(p, _, ptr) =>
        if ptr == 0 {
          NullCounts(s, e);
        } else if p in s.live {
          assert t.table[ptr].cnt == 2;
        } else if p == ptr {
          assert p in t.live && t.table[p].cnt == 0;
        } else {
          assert t.table[p].cnt == -1;
        }
      case Freed(_) =>
    }
  }

  /** A call keeps the agreement if and only if the real allocator returned neither NULL nor an
      address in use, and realloc was given one in use. */
  lemma StepSoundIff(s: Trace, e: Event)
    requires Sound(s) && 0 !in s.table && Known(s, e)
    ensures Sound(Step(s, e)) <==> Proper(s, e)
  {
    if Proper(s, e) {
      StepSound(s, e);
    } else {
      ImproperCounts(s, e);
    }
  }

  predicate KnownRun(es: seq<Event>) {
    es == [] || (KnownRun(es[..|es| - 1]) && Known(Run(es[..|es| - 1]), es[|es| - 1]))
  }

  lemma FreshSound()
    ensures Sound(FRESH)
  {
    assert LiveSizes(FRESH.table) == map[];
  }

  /** Over every proper run the table, the counters and the real allocator agree. */
  lemma {:induction false} RunSound(es: seq<Event>)
    requires ProperRun(es)
    ensures Sound(Run(es)) && 0 !in Run(es).table
  {
    if es == [] {
      FreshSound();
    } else {
      RunSound(es[..|es| - 1]);
      StepSound(Run(es[..|es| - 1]), es[|es| - 1]);
    }
  }

  /** The agreement holds before the run and after every event of it. */
  ghost predicate SoundThrough(es: seq<Event>) {
    Sound(Run(es)) && (es == [] || SoundThrough(es[..|es| - 1]))
  }

  /** It holds all through a run if and only if the run is proper. */
  lemma {:induction false} RunSoundIff(es: seq<Event>)
    requires KnownRun(es)
    ensures SoundThrough(es) <==> ProperRun(es)
  {
    if es == [] {
      FreshSound();
    } else {
      var front := es[..|es| - 1];
      RunSoundIff(front);
      if SoundThrough(front) {
        RunSound(front);
        StepSoundIff(Run(front), es[|es| - 1]);
      }
    }
  }

  lemma RunNext(es: seq<Event>, e: Event)
    ensures Run(es + [e]) == Step(Run(es), e)
    ensures KnownRun(es + [e]) <==> KnownRun(es) && Known(Run(es), e)
    ensures ProperRun(es + [e]) <==> ProperRun(es) && Proper(Run(es), e)
  {
    assert (es + [e])[..|es|] == es;
  }

  /** After one failed malloc nothing is in use, and NULL is reported as not freed. */
  lemma FailedMalloc()
    ensures
      var es := [] + [Malloced(8, 0)];
      && KnownRun(es) && !ProperRun(es)
      && Run(es).live == {} && Run(es).table == map[0 := Info(8, 1)]
  {
    RunNext([], Malloced(8, 0));
  }

  /** A failed realloc leaves its block in use; freeing that block is then refused as a double
      free. */
  lemma FailedRealloc()
    ensures
      var es := [] + [Malloced(8, 16)] + [Realloced(16, 0x1000_0000, 0)];
      && KnownRun(es) && !ProperRun(es)
      && 16 in Run(es).live && Verdict(Run(es).table, 16).DoubleFree?
  {
    RunNext([], Malloced(8, 16));
    RunNext([] + [Malloced(8, 16)], Realloced(16, 0x1000_0000, 0));
  }

  /** A freed block given to realloc is counted below zero. */
  lemma FreedAgain()
    ensures
      var es := [] + [Malloced(8, 16)] + [Freed(16)] + [Realloced(16, 8, 32)];
      && KnownRun(es) && !ProperRun(es) && 16 in Run(es).table && Run(es).table[16].cnt == -1
      && 16 !in Run(es).live && Verdict(Run(es).table, 16).DoubleFree?
  {
    RunNext([], Malloced(8, 16));
    RunNext([] + [Malloced(8, 16)], Freed(16));
    RunNext([] + [Malloced(8, 16)] + [Freed(16)], Realloced(16, 8, 32));
  }

  // ---- calls and bytes asked for ----

  /** The indices of the calls that ask the real allocator for a block. */
  function Requests(es: seq<Event>): set<int> {
    set i | 0 <= i < |es| && !es[i].Freed?
  }

  /** alloc_times counts the calls of malloc, calloc and realloc. */
  lemma {:induction false} TimesCount(es: seq<Event>)
    ensures Run(es).allocTimes == |Requests(es)|
  {
    if es != [] {
      var n := |es| - 1;
      TimesCount(es[..n]);
      if es[n].Freed? {
        assert Requests(es) == Requests(es[..n]);
      } else {
        assert Requests(es) == Requests(es[..n]) + {n};
      }
    }
  }


  /** The bytes a call asks the real allocator for. */
  function Bytes(e: Event): int {
    match e
    case Malloced(size, _) => size
    case Calloced(nmemb, size, _) => nmemb * size
    case Realloced(_, size, _) => size
    case Freed(_) => 0
  }

  function Asked(es: seq<Event>): int {
    if es == [] then 0 else Asked(es[..|es| - 1]) + Bytes(es[|es| - 1])
  }

  /** calloc records what it asked for. */
  predicate CountedRight(e: Event) {
    e.Calloced? ==> e.nmemb == 1 || e.size == 0
  }

  lemma StepBytes(s: Trace, e: Event)
    ensures Step(s, e).nMalloc - s.nMalloc == Bytes(e) <==> CountedRight(e)
    ensures e.Calloced? && e.nmemb >= 1 && e.size >= 0 ==> Step(s, e).nMalloc - s.nMalloc <= Bytes(e)
    ensures !e.Calloced? ==> Step(s, e).nMalloc - s.nMalloc == Bytes(e)
  {
    if e.Calloced? {
      assert e.nmemb * e.size - e.size == (e.nmemb - 1) * e.size;
    }
  }

  /** n_malloc is the number of bytes asked for, after every event of the run. */
  predicate TotalThrough(es: seq<Event>) {
    Run(es).nMalloc == Asked(es) && (es == [] || TotalThrough(es[..|es| - 1]))
  }

  /** It is so all through a run if and only if every calloc asks for a single element or for
      nothing. */
  lemma {:induction false} TotalIff(es: seq<Event>)
    ensures TotalThrough(es) <==> forall i :: 0 <= i < |es| ==> CountedRight(es[i])
  {
    if es != [] {
      var n := |es| - 1;
      var front := es[..n];
      assert forall i :: 0 <= i < n ==> front[i] == es[i];
      TotalIff(front);
      StepBytes(Run(front), es[n]);
    }
  }

  /** When no calloc asks for zero elements, n_malloc is never too high, and the final total alone
      tells. */
  lemma {:induction false} FinalTotalIff(es: seq<Event>)
    requires forall i :: 0 <= i < |es| && es[i].Calloced? ==> es[i].nmemb >= 1 && es[i].size >= 0
    ensures Run(es).nMalloc <= Asked(es)
    ensures Run(es).nMalloc == Asked(es) <==> forall i :: 0 <= i < |es| ==> CountedRight(es[i])
  {
    if es != [] {
      var n := |es| - 1;
      var front := es[..n];
      assert forall i :: 0 <= i < n ==> front[i] == es[i];
      FinalTotalIff(front);
      StepBytes(Run(front), es[n]);
    }
  }

  /** free tells the blocks in use from freed ones and from unknown addresses. */
  predicate Guards(s: Trace, ptr: int) {
    && (Verdict(s.table, ptr).RealFree? <==> ptr in s.live)
    && (Verdict(s.table, ptr).IllegalFree? <==> ptr !in s.table)
    && (Verdict(s.table, ptr).DoubleFree? <==> ptr in s.table && ptr !in s.live)
  }

  lemma SoundGuards(s: Trace, ptr: int)
    requires Sound(s)
    ensures Guards(s, ptr)
  {
  }

  /** After a proper run the real free is called exactly on blocks in use; any other pointer is
      reported, as illegal if it was never handed out and as a double free if it was. */
  lemma FreeGuarded(es: seq<Event>, ptr: int)
    requires ProperRun(es)
    ensures Guards(Run(es), ptr)
  {
    RunSound(es);
    SoundGuards(Run(es), ptr);
  }

  /** Event e hands out ptr. */
  predicate HandsOut(e: Event, ptr: int) {
    !e.Freed? && e.ptr == ptr
  }

  /** The table keeps exactly the addresses ever handed out. */
  lemma {:induction false} TableRemembers(es: seq<Event>, ptr: int)
    ensures ptr in Run(es).table <==> exists i :: 0 <= i < |es| && HandsOut(es[i], ptr)
  {
    if es != [] {
      var front, last := es[..|es| - 1], |es| - 1;
      TableRemembers(front, ptr);
      if i :| 0 <= i < |front| && HandsOut(front[i], ptr) {
        assert HandsOut(es[i], ptr);
      }
      if i :| 0 <= i < last && HandsOut(es[i], ptr) {
        assert HandsOut(front[i], ptr);
      }
    }
  }

  /** What the report after a proper run must be: the blocks in use, once each, by address. */
  ghost predicate IsReport(out: seq<Entry>, s: Trace) {
    && Sorted(out)
    && (forall e :: e in out <==> e.ptr in s.live && e.ptr in s.table && s.table[e.ptr] == Info(e.size, e.cnt))
  }

  /** ptr handed out, and the blocks gone given back on the way. */
  function Recorded(s: Trace, ptr: int, size: int, gone: set<int>): Trace {
    Trace(Allocate(s.table, ptr, size), s.nMalloc + size, s.allocTimes + 1, s.freeSize,
          s.live - gone + HandedOut(ptr))
  }

  /** p discharged from the list; gone given back to the real allocator. */
  function Discharged(s: Trace, p: int, gone: set<int>): Trace {
    s.(table := Deallocate(s.table, p), freeSize := s.freeSize + SizeIn(s.table, p), live := s.live - gone)
  }

  lemma ReallocSteps(s: Trace, p: int, size: int, ptr: int)
    ensures Recorded(Discharged(s, p, {}), ptr, size, GivenBack(p, size, ptr)) == Step(s, Realloced(p, size, ptr))
  {
  }

  class Tracer {
    const list: MemList
    var nMalloc: int
    var allocTimes: int
    var freeSize: int
    /** The blocks in use. */
    ghost var live: set<int>

    ghost predicate Valid()
      reads this, list, list.Repr()
    {
      list.Valid()
    }

    ghost function Repr(): set<object>
      reads this, list
    {
      {this} + list.Repr()
    }

    /** The tracer as a value. */
    ghost function View(): Trace
      reads this, list, list.Repr()
      requires Valid()
    {
      Trace(list.Table(), nMalloc, allocTimes, freeSize, live)
    }

    /** init */
    constructor ()
      ensures Valid() && View() == FRESH
    {
      list := new MemList();
      nMalloc, allocTimes, freeSize := 0, 0, 0;
      live := {};
    }

    /** malloc, the real one having returned ptr. */
    method Malloc(size: int, ptr: int)
      requires Valid()
      modifies Repr()
      ensures Valid() && fresh(Repr() - old(Repr()))
      ensures View() == Step(old(View()), Malloced(size, ptr))
    {
      Record(ptr, size, {});
    }

    /** calloc: it records size, not nmemb * size. */
    method Calloc(nmemb: int, size: int, ptr: int)
      requires Valid()
      modifies Repr()
      ensures Valid() && fresh(Repr() - old(Repr()))
      ensures View() == Step(old(View()), Calloced(nmemb, size, ptr))
    {
      Record(ptr, size, {});
    }

    /** realloc, the real one having returned ptr: false when it dereferences the NULL find
        returns for an unknown address. */
    method Realloc(p: int, size: int, ptr: int) returns (ok: bool)
      requires Valid()
      modifies Repr()
      ensures Valid() && fresh(Repr() - old(Repr()))
      ensures ok <==> p in old(View()).table
      ensures View() == if ok then Step(old(View()), Realloced(p, size, ptr)) else old(View())
    {
      var tempp := list.Find(p);
      ok := tempp != null;
      if ok {
        ReallocSteps(View(), p, size, ptr);
        Discharge(p, tempp, {});
        Record(ptr, size, GivenBack(p, size, ptr));
      }
    }

    /** alloc and the counters that go with it. */
    method Record(ptr: int, size: int, ghost gone: set<int>)
      requires Valid()
      modifies this`nMalloc, this`allocTimes, this`live, list.Repr()
      ensures Valid() && fresh(list.Repr() - old(list.Repr()))
      ensures View() == Recorded(old(View()), ptr, size, gone)
    {
      Count(ptr, size, gone);
      var _ := list.Alloc(ptr, size);
    }

    method Count(ptr: int, size: int, ghost gone: set<int>)
      requires Valid()
      modifies this`nMalloc, this`allocTimes, this`live
      ensures Valid()
      ensures View() ==
              Trace(old(View()).table, old(nMalloc) + size, old(allocTimes) + 1, freeSize,
                    old(live) - gone + HandedOut(ptr))
    {
      live := live - gone + HandedOut(ptr);
      nMalloc := nMalloc + size;
      allocTimes := allocTimes + 1;
    }

    /** dealloc and the counter that goes with it. */
    method Discharge(p: int, item: Item, ghost gone: set<int>)
      requires Valid() && p in View().table && item.size == View().table[p].size
      modifies this`freeSize, this`live, list.nodes
      ensures Valid() && list.nodes == old(list.nodes)
      ensures View() == Discharged(old(View()), p, gone)
    {
      live := live - gone;
      freeSize := freeSize + item.size;
      var _ := list.Dealloc(p);
    }

    /** free: whether the real free is called, or what is logged instead. */
    method Free(p: int) returns (r: Outcome)
      requires Valid()
      modifies Repr()
      ensures Valid() && fresh(Repr() - old(Repr()))
      ensures r == Verdict(old(View()).table, p)
      ensures View() == Step(old(View()), Freed(p))
    {
      var tempp := list.Find(p);
      if tempp == null {
        return IllegalFree;
      } else if tempp.cnt <= 0 {
        return DoubleFree;
      } else {
        Discharge(p, tempp, {p});
        return RealFree;
      }
    }

    /** fini's report of what was not freed. */
    method ShowBlocks() returns (out: seq<Entry>)
      requires Valid()
      ensures Sorted(out) && forall e :: e in out <==>
                e.ptr in View().table && View().table[e.ptr] == Info(e.size, e.cnt) && e.cnt > 0
      ensures Sound(View()) ==> IsReport(out, View())
    {
      out := list.Report();
    }
  }
}
