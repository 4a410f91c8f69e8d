/** The list of payload extents that mdriver.c keeps and mm_free prunes. */
module RangeLists {
  import opened Basics

  class Range {
    var lo: int
    var hi: int
    var next: Range?

    constructor (lo: int, hi: int, next: Range?)
      ensures this.lo == lo && this.hi == hi && this.next == next
    {
      this.lo := lo;
      this.hi := hi;
      this.next := next;
    }
  }

  /** A `range_t *` variable, the list head. */
  class RangeList {
    var head: Range?
    ghost var nodes: seq<Range>

    ghost predicate Valid()
      reads this, nodes
    {
      && head == NodeAt(nodes, 0, null)
      && (forall i {:trigger nodes[i].next} :: 0 <= i < |nodes| ==> nodes[i].next == NodeAt(nodes, i + 1, null))
      && (forall i, j :: 0 <= i < j < |nodes| ==> nodes[i] != nodes[j])
    }

    ghost function Repr(): set<object>
      reads this
    {
      {this} + (set n: object | n in nodes)
    }

    /** The extents on the list, in order. */
    ghost function Extents(): (r: seq<(int, int)>)
      reads this, nodes
    {
      seq(|nodes|, i requires 0 <= i < |nodes| reads this, nodes => (nodes[i].lo, nodes[i].hi))
    }

    constructor ()
      ensures Valid() && nodes == [] && Extents() == []
    {
      head := null;
      nodes := [];
    }

    /** The list-building end of add_range. */
    method Push(lo: int, hi: int)
      requires Valid()
      modifies this
      ensures Valid() && fresh(Repr() - old(Repr()))
      ensures Extents() == [(lo, hi)] + old(Extents())
    {
      var p := new Range(lo, hi, head);
      head := p;
      nodes := [p] + nodes;
      assert nodes[1..] == old(nodes);
    }

    /** add_range's scan: whether any extent hits lo..hi. */
    method AnyHit(lo: int, hi: int) returns (hit: bool)
      requires Valid()
      ensures hit <==> exists e :: e in Extents() && Hits(lo, hi, e)
    {
      var p := head;
      ghost var i := 0;
      while p != null
        invariant 0 <= i <= |nodes|
        invariant p == NodeAt(nodes, i, null)
        invariant forall j :: 0 <= j < i ==> !Hits(lo, hi, Extents()[j])
        decreases |nodes| - i
      {
        assert Extents()[i] == (p.lo, p.hi);
        if (lo >= p.lo && lo <= p.hi) || (hi >= p.lo && hi <= p.hi) {
          assert Extents()[i] in Extents();
          return true;
        }
        p := p.next;
        i := i + 1;
      }
      return false;
    }

    /** `*prevpp = p->next`: the head, or the next field of the node before, skips p. */
    method Unlink(prev: Range?, p: Range, ghost i: nat)
      requires Valid()
      requires i < |nodes| && p == nodes[i] && prev == NodeAt(nodes, i - 1, null)
      modifies this, if prev == null then {} else {prev}
      ensures Valid()
      ensures nodes == old(nodes)[..i] + old(nodes)[i + 1..]
      ensures forall n <- old(nodes) :: n.lo == old(n.lo) && n.hi == old(n.hi)
    {
      if prev == null {
        head := p.next;
      } else {
        prev.next := p.next;
      }
      ghost var was := nodes;
      nodes := was[..i] + was[i + 1..];
      assert forall j {:trigger nodes[j]} :: 0 <= j < |nodes| ==> nodes[j] == was[if j < i then j else j + 1];
    }

    /** The found case of remove_range. */
    method RemoveFound(prev: Range?, p: Range, lo: int, ghost i: nat)
      requires Valid()
      requires i < |nodes| && p == nodes[i] && prev == NodeAt(nodes, i - 1, null)
      requires p.lo == lo && forall j :: 0 <= j < i ==> nodes[j].lo != lo
      modifies this, if prev == null then {} else {prev}
      ensures Valid() && Repr() <= old(Repr())
      ensures Extents() == WithoutLo(old(Extents()), lo)
    {
      WithoutLoAt(Extents(), lo, i);
      Unlink(prev, p, i);
    }

    /** remove_range: unlink the first extent that starts at lo. */
    method Remove(lo: int)
      requires Valid()
      modifies Repr()
      ensures Valid() && Repr() <= old(Repr())
      ensures Extents() == WithoutLo(old(Extents()), lo)
    {
      var prev: Range? := null;
      var p := head;
      ghost var i := 0;
      while p != null
        invariant 0 <= i <= |nodes|
        invariant p == NodeAt(nodes, i, null)
        invariant prev == NodeAt(nodes, i - 1, null)
        invariant forall j :: 0 <= j < i ==> nodes[j].lo != lo
        decreases |nodes| - i
      {
        if p.lo == lo {
          RemoveFound(prev, p, lo, i);
          return;
        }
        prev := p;
        p := p.next;
        i := i + 1;
      }
      WithoutLoNone(Extents(), lo);
    }

    /** clear_ranges */
    method Clear()
      requires Valid()
      modifies this
      ensures Valid() && Extents() == [] && Repr() == {this}
    {
      var p := head;
      ghost var i := 0;
      while p != null
        invariant 0 <= i <= |nodes|
        invariant p == NodeAt(nodes, i, null)
        decreases |nodes| - i
      {
        p := p.next;
        i := i + 1;
      }
      head := null;
      nodes := [];
    }
  }

  /** add_range's overlap test against one extent. */
  predicate Hits(lo: int, hi: int, e: (int, int)) {
    (lo >= e.0 && lo <= e.1) || (hi >= e.0 && hi <= e.1)
  }

  predicate Within(x: int, e: (int, int)) {
    e.0 <= x <= e.1
  }

  /** The test finds every overlap but one: a new extent that strictly contains the old one. */
  lemma HitsIff(lo: int, hi: int, e: (int, int))
    requires lo <= hi && e.0 <= e.1
    ensures Hits(lo, hi, e) <==> (exists x :: Within(x, (lo, hi)) && Within(x, e)) && !(lo < e.0 && e.1 < hi)
  {
    if lo <= e.1 && e.0 <= hi {
      var x := if lo < e.0 then e.0 else lo;
      assert Within(x, (lo, hi)) && Within(x, e);
    }
  }

  /** A new extent around an old one shares its bytes, and the test does not find it. */
  lemma AroundMissed()
    ensures
      var e := (3, 5);
      Within(3, (0, 10)) && Within(3, e) && !Hits(0, 10, e)
  {
  }

  /** No two extents start at the same address. */
  ghost predicate DistinctLo(r: seq<(int, int)>) {
    forall i, j :: 0 <= i < j < |r| ==> r[i].0 != r[j].0
  }

  lemma DistinctRest(r: seq<(int, int)>)
    requires DistinctLo(r) && r != []
    ensures DistinctLo(r[1..]) && forall e :: e in r[1..] ==> e.0 != r[0].0
  {
  }

  lemma {:induction false} WithoutLoMembers(r: seq<(int, int)>, lo: int)
    requires DistinctLo(r)
    ensures forall e :: e in WithoutLo(r, lo) <==> e in r && e.0 != lo
  {
    if r != [] {
      DistinctRest(r);
      assert r == [r[0]] + r[1..];
      if r[0].0 != lo {
        WithoutLoMembers(r[1..], lo);
      }
    }
  }

  /** Removing an extent leaves exactly the others. */
  lemma {:induction false} WithoutLoKeeps(r: seq<(int, int)>, lo: int)
    requires DistinctLo(r)
    ensures DistinctLo(WithoutLo(r, lo))
    ensures forall e :: e in WithoutLo(r, lo) <==> e in r && e.0 != lo
  {
    WithoutLoMembers(r, lo);
    if r != [] {
      DistinctRest(r);
      if r[0].0 != lo {
        WithoutLoKeeps(r[1..], lo);
        var w := WithoutLo(r[1..], lo);
        assert forall i :: 0 <= i < |w| ==> w[i] in w;
      }
    }
  }

  function WithoutLo(r: seq<(int, int)>, lo: int): seq<(int, int)> {
    if r == [] then [] else if r[0].0 == lo then r[1..] else [r[0]] + WithoutLo(r[1..], lo)
  }

  lemma {:induction false} WithoutLoAt(r: seq<(int, int)>, lo: int, i: nat)
    requires i < |r| && r[i].0 == lo
    requires forall j :: 0 <= j < i ==> r[j].0 != lo
    ensures WithoutLo(r, lo) == r[..i] + r[i + 1..]
  {
    if i > 0 {
      WithoutLoAt(r[1..], lo, i - 1);
      assert r[..i] == [r[0]] + r[1..][..i - 1];
    }
  }

  lemma {:induction false} WithoutLoNone(r: seq<(int, int)>, lo: int)
    requires forall j :: 0 <= j < |r| ==> r[j].0 != lo
    ensures WithoutLo(r, lo) == r
  {
    if r != [] {
      WithoutLoNone(r[1..], lo);
    }
  }
}
