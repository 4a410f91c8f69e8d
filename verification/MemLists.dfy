/** linklab's memlist.c: blocks in a linked list sorted by address, with allocation counts. */
module MemLists {
  import opened Basics

  /** What the list knows of one block. */
  datatype Entry = Entry(ptr: int, size: int, cnt: int)

  datatype Info = Info(size: int, cnt: int)

  ghost predicate Sorted(es: seq<Entry>) {
    forall i, j :: 0 <= i < j < |es| ==> es[i].ptr < es[j].ptr
  }

  /** The list as a table from address to size and count. */
  function ToMap(es: seq<Entry>): map<int, Info> {
    if es == [] then map[] else ToMap(es[1..])[es[0].ptr := Info(es[0].size, es[0].cnt)]
  }

  /** The table of a sorted list holds its entries and nothing else. */
  lemma {:induction false} ToMapHolds(es: seq<Entry>)
    requires Sorted(es)
    ensures forall i :: 0 <= i < |es| ==> es[i].ptr in ToMap(es) && ToMap(es)[es[i].ptr] == Info(es[i].size, es[i].cnt)
    ensures forall p :: p in ToMap(es) ==> exists i :: 0 <= i < |es| && es[i].ptr == p
  {
    if es != [] {
      var rest := es[1..];
      ToMapHolds(rest);
      forall i | 0 <= i < |es|
        ensures es[i].ptr in ToMap(es) && ToMap(es)[es[i].ptr] == Info(es[i].size, es[i].cnt)
      {
        if i > 0 {
          assert rest[i - 1] == es[i];
        }
      }
      forall p | p in ToMap(es)
        ensures exists i :: 0 <= i < |es| && es[i].ptr == p
      {
        if i :| 0 <= i < |rest| && rest[i].ptr == p {
          assert es[i + 1].ptr == p;
        } else {
          assert es[0].ptr == p;
        }
      }
    }
  }

  lemma {:induction false} ToMapUpdate(es: seq<Entry>, i: nat, e: Entry)
    requires Sorted(es) && i < |es| && e.ptr == es[i].ptr
    ensures Sorted(es[i := e]) && ToMap(es[i := e]) == ToMap(es)[e.ptr := Info(e.size, e.cnt)]
  {
    if i > 0 {
      ToMapUpdate(es[1..], i - 1, e);
      assert es[i := e][1..] == es[1..][i - 1 := e];
    } else {
      assert es[0 := e][1..] == es[1..];
    }
  }

  lemma SortedInsert(es: seq<Entry>, i: nat, e: Entry)
    requires Sorted(es) && i <= |es|
    requires forall j :: 0 <= j < i ==> es[j].ptr < e.ptr
    requires forall j :: i <= j < |es| ==> e.ptr < es[j].ptr
    ensures Sorted(es[..i] + [e] + es[i..])
  {
  }

  lemma {:induction false} ToMapInsert(es: seq<Entry>, i: nat, e: Entry)
    requires Sorted(es) && i <= |es|
    requires forall j :: 0 <= j < i ==> es[j].ptr < e.ptr
    requires forall j :: i <= j < |es| ==> e.ptr < es[j].ptr
    ensures e.ptr !in ToMap(es)
    ensures ToMap(es[..i] + [e] + es[i..]) == ToMap(es)[e.ptr := Info(e.size, e.cnt)]
  {
    var es' := es[..i] + [e] + es[i..];
    if i == 0 {
      assert es' == [e] + es;
      ToMapHolds(es);
    } else {
      ToMapInsert(es[1..], i - 1, e);
      assert es'[1..] == es[1..][..i - 1] + [e] + es[1..][i - 1..];
    }
  }

  /** alloc on the table. */
  function Allocate(t: map<int, Info>, ptr: int, size: int): map<int, Info> {
    t[ptr := Info(size, if ptr in t then t[ptr].cnt + 1 else 1)]
  }

  /** dealloc on the table. */
  function Deallocate(t: map<int, Info>, ptr: int): map<int, Info> {
    if ptr in t then t[ptr := Info(t[ptr].size, t[ptr].cnt - 1)] else t
  }

  /** A new block in its place among the entries is a new block in the table. */
  lemma InsertedTable(es: seq<Entry>, k: nat, ptr: int, size: int)
    requires Sorted(es) && k <= |es|
    requires forall j :: 0 <= j < k ==> es[j].ptr < ptr
    requires k < |es| ==> ptr < es[k].ptr
    ensures
      var es' := es[..k] + [Entry(ptr, size, 1)] + es[k..];
      Sorted(es') && ToMap(es') == Allocate(ToMap(es), ptr, size)
  {
    assert forall j :: k < j < |es| ==> es[k].ptr < es[j].ptr;
    SortedInsert(es, k, Entry(ptr, size, 1));
    ToMapInsert(es, k, Entry(ptr, size, 1));
  }

  /** out holds, in order, those of the first k entries that have a positive count. */
  ghost predicate Reported(es: seq<Entry>, k: nat, out: seq<Entry>)
    requires k <= |es|
  {
    && Sorted(out)
    && (forall j :: 0 <= j < |out| ==> out[j] in es[..k] && out[j].cnt > 0)
    && forall l :: 0 <= l < k && es[l].cnt > 0 ==> es[l] in out
  }

  lemma ReportNext(es: seq<Entry>, k: nat, out: seq<Entry>)
    requires Sorted(es) && k < |es| && Reported(es, k, out)
    ensures Reported(es, k + 1, if es[k].cnt > 0 then out + [es[k]] else out)
  {
    assert es[..k + 1] == es[..k] + [es[k]];
  }

  /** A list element; the caller's name and offset are left out. */
  class Item {
    var ptr: int
    var size: int
    var cnt: int
    var next: Item?

    constructor (ptr: int, size: int, cnt: int)
      ensures this.ptr == ptr && this.size == size && this.cnt == cnt && next == null
    {
      this.ptr := ptr;
      this.size := size;
      this.cnt := cnt;
      next := null;
    }
  }

  /** The list behind its dummy first element. */
  class MemList {
    const head: Item
    ghost var nodes: seq<Item>

    ghost predicate Linked()
      reads this, head, nodes
    {
      && head.next == NodeAt(nodes, 0, null)
      && (forall i {:trigger nodes[i].next} :: 0 <= i < |nodes| ==> nodes[i].next == NodeAt(nodes, i + 1, null))
      && (forall i, j :: 0 <= i < j < |nodes| ==> nodes[i] != nodes[j])
      && head !in nodes
    }

    ghost predicate Valid()
      reads this, head, nodes
    {
      Linked() && Sorted(Entries())
    }

    ghost function Repr(): set<object>
      reads this
    {
      {this, head} + (set n: object | n in nodes)
    }

    ghost function Entries(): seq<Entry>
      reads this, nodes
    {
      seq(|nodes|, i requires 0 <= i < |nodes| reads this, nodes => Entry(nodes[i].ptr, nodes[i].size, nodes[i].cnt))
    }

    ghost function Table(): map<int, Info>
      reads this, nodes
    {
      ToMap(Entries())
    }

    /** new_list */
    constructor ()
      ensures Valid() && Table() == map[] && fresh(Repr())
    {
      head := new Item(0, 0, 0);
      nodes := [];
    }

    /** find, with its early exit: the element of ptr, null exactly when the table has none. */
    method Find(ptr: int) returns (r: Item?)
      requires Valid()
      ensures r == null <==> ptr !in Table()
      ensures r != null ==> r in nodes && r.ptr == ptr && Table()[ptr] == Info(r.size, r.cnt)
    {
      ToMapHolds(Entries());
      r := head.next;
      ghost var i := 0;
      while r != null && ptr > r.ptr
        invariant 0 <= i <= |nodes| && r == NodeAt(nodes, i, null)
        invariant forall j :: 0 <= j < i ==> Entries()[j].ptr < ptr
        decreases |nodes| - i
      {
        assert Entries()[i].ptr == r.ptr;
        r := r.next;
        i := i + 1;
      }
      if r != null && r.ptr == ptr {
        assert Entries()[i].ptr == ptr;
      } else {
        assert r != null ==> Entries()[i].ptr == r.ptr;
        assert forall j :: i < j < |nodes| ==> Entries()[i].ptr < Entries()[j].ptr;
        r := null;
      }
    }

    /** dealloc: one less allocation of ptr, null when there is no such block. */
    method Dealloc(ptr: int) returns (r: Item?)
      requires Valid()
      modifies nodes
      ensures Valid() && nodes == old(nodes)
      ensures r == null <==> ptr !in old(Table())
      ensures r != null ==> r in nodes && r.ptr == ptr
      ensures Table() == Deallocate(old(Table()), ptr)
    {
      ghost var es := Entries();
      ToMapHolds(es);
      r := head.next;
      ghost var i := 0;
      while r != null && r.ptr != ptr
        invariant 0 <= i <= |nodes| && r == NodeAt(nodes, i, null)
        invariant forall j :: 0 <= j < i ==> es[j].ptr != ptr
        decreases |nodes| - i
      {
        r := r.next;
        i := i + 1;
      }
      if r != null {
        assert es[i].ptr == ptr;
        r.cnt := r.cnt - 1;
        ToMapUpdate(es, i, Entry(ptr, es[i].size, es[i].cnt - 1));
        assert Entries() == es[i := Entry(ptr, es[i].size, es[i].cnt - 1)];
      }
    }

    /** The search of alloc: the first element not below ptr, and the one before it. */
    method Locate(ptr: int) returns (prev: Item, cur: Item?, ghost k: nat)
      requires Valid()
      ensures k <= |nodes| && cur == NodeAt(nodes, k, null) && prev == if k == 0 then head else nodes[k - 1]
      ensures forall j :: 0 <= j < k ==> Entries()[j].ptr < ptr
      ensures cur != null ==> ptr <= cur.ptr
    {
      prev := head;
      cur := head.next;
      k := 0;
      while cur != null && cur.ptr < ptr
        invariant k <= |nodes| && cur == NodeAt(nodes, k, null)
        invariant prev == if k == 0 then head else nodes[k - 1]
        invariant forall j :: 0 <= j < k ==> Entries()[j].ptr < ptr
        decreases |nodes| - k
      {
        prev := cur;
        cur := cur.next;
        k := k + 1;
      }
    }

    /** The update of alloc when the block is known. */
    method Again(cur: Item, size: int, ghost k: nat)
      requires Valid() && k < |nodes| && cur == nodes[k]
      modifies cur
      ensures Valid() && nodes == old(nodes) && cur.ptr == old(cur.ptr)
      ensures cur.ptr in old(Table())
      ensures Table() == old(Table())[cur.ptr := Info(size, old(Table())[cur.ptr].cnt + 1)]
    {
      ghost var es := Entries();
      ghost var e := Entry(cur.ptr, size, cur.cnt + 1);
      assert es[k] == Entry(cur.ptr, cur.size, cur.cnt);
      ToMapHolds(es);
      cur.size := size;
      cur.cnt := cur.cnt + 1;
      ToMapUpdate(es, k, e);
      assert Entries() == es[k := e];
    }

    /** alloc: record ptr, or its new size and one more allocation if it is already known. */
    method Alloc(ptr: int, size: int) returns (i: Item)
      requires Valid()
      modifies Repr()
      ensures Valid() && fresh(Repr() - old(Repr()))
      ensures Table() == Allocate(old(Table()), ptr, size)
      ensures i in nodes && i.ptr == ptr
    {
      i := new Item(ptr, size, 1);
      var prev, cur;
      ghost var k;
      prev, cur, k := Locate(ptr);
      if cur != null && cur.ptr == i.ptr {
        Again(cur, size, k);
        assert Table() == Allocate(old(Table()), ptr, size);
        i := cur;
      } else {
        InsertNew(prev, cur, i, k);
      }
    }

    /** alloc of a block the list does not know. */
    method InsertNew(prev: Item, cur: Item?, i: Item, ghost k: nat)
      requires Valid() && k <= |nodes| && cur == NodeAt(nodes, k, null)
      requires prev == if k == 0 then head else nodes[k - 1]
      requires i !in nodes && i != head && i.next == null && i.cnt == 1
      requires forall j :: 0 <= j < k ==> Entries()[j].ptr < i.ptr
      requires cur != null ==> i.ptr < cur.ptr
      modifies this, prev, i
      ensures Valid() && nodes == old(nodes)[..k] + [i] + old(nodes)[k..]
      ensures Table() == Allocate(old(Table()), old(i.ptr), old(i.size)) && i.ptr == old(i.ptr)
    {
      ghost var es := Entries();
      assert cur != null ==> es[k].ptr == cur.ptr;
      InsertedTable(es, k, i.ptr, i.size);
      InsertItem(prev, cur, i, k);
    }

    /** The insertion of alloc. */
    method InsertItem(prev: Item, cur: Item?, i: Item, ghost k: nat)
      requires Linked() && k <= |nodes| && cur == NodeAt(nodes, k, null)
      requires prev == if k == 0 then head else nodes[k - 1]
      requires i !in nodes && i != head && i.next == null
      modifies this, prev, i
      ensures Linked() && nodes == old(nodes)[..k] + [i] + old(nodes)[k..]
      ensures Entries() == old(Entries())[..k] + [Entry(i.ptr, i.size, i.cnt)] + old(Entries())[k..]
      ensures i.ptr == old(i.ptr) && i.size == old(i.size) && i.cnt == old(i.cnt)
    {
      i.next := cur;
      prev.next := i;
      ghost var was := nodes;
      nodes := was[..k] + [i] + was[k..];
      assert forall j {:trigger nodes[j]} :: 0 <= j < |nodes| ==>
          nodes[j] == if j < k then was[j] else if j == k then i else was[j - 1];
    }

    /** show_bloks of the bonus tracer: what is still allocated, in list order. */
    method Report() returns (out: seq<Entry>)
      requires Valid()
      ensures Sorted(out)
      ensures forall e :: e in out <==> e.ptr in Table() && Table()[e.ptr] == Info(e.size, e.cnt) && e.cnt > 0
    {
      ghost var es := Entries();
      ToMapHolds(es);
      out := [];
      var i := head.next;
      ghost var k := 0;
      while i != null
        invariant 0 <= k <= |nodes| && i == NodeAt(nodes, k, null)
        invariant Reported(es, k, out)
        decreases |nodes| - k
      {
        assert es[k] == Entry(i.ptr, i.size, i.cnt);
        ReportNext(es, k, out);
        if i.cnt > 0 {
          out := out + [Entry(i.ptr, i.size, i.cnt)];
        }
        i := i.next;
        k := k + 1;
      }
    }
  }
}
