/** `src/heap.cpp`: a binary heap of deadlines whose items point back to the entries, and the entries
    hold the index of their item. */
module TtlHeap {
  import opened Entries

  datatype HeapItem = HeapItem(val: nat, ref: Entry)
  type Items = seq<HeapItem>

  function Parent(i: nat): nat
    requires i > 0
  { (i + 1) / 2 - 1 }

  function Left(i: nat): nat { i * 2 + 1 }

  function Right(i: nat): nat { i * 2 + 2 }

  predicate Below(v: Items, i: nat)
    requires i < |v|
  { i > 0 ==> v[Parent(i)].val <= v[i].val }

  /** No item is due before its parent. */
  ghost predicate Ordered(v: Items) { forall i :: 0 <= i < |v| ==> Below(v, i) }

  /** The children of `pos` are not due before the parent of `pos`. */
  ghost predicate Skips(v: Items, pos: nat)
    requires pos < |v|
  { pos > 0 ==> forall i :: 0 < i < |v| && Parent(i) == pos ==> v[Parent(pos)].val <= v[i].val }

  /** In order but for what the item at `pos` does to its parent and its children. */
  ghost predicate OrderedBut(v: Items, pos: nat)
    requires pos < |v|
  {
    && (forall i :: 0 <= i < |v| && i != pos && (i > 0 ==> Parent(i) != pos) ==> Below(v, i))
    && Skips(v, pos)
  }

  /** In order but for the parent of `pos`. */
  ghost predicate OrderedButUp(v: Items, pos: nat)
    requires pos < |v|
  { (forall i :: 0 <= i < |v| && i != pos ==> Below(v, i)) && Skips(v, pos) }

  /** In order but for the children of `pos`. */
  ghost predicate OrderedButDown(v: Items, pos: nat)
    requires pos < |v|
  { (forall i :: 0 < i < |v| && Parent(i) != pos ==> Below(v, i)) && Skips(v, pos) }

  /** No entry has two items. */
  ghost predicate Distinct(v: Items) { forall i, j :: 0 <= i < j < |v| ==> v[i].ref != v[j].ref }

  function Swap(v: Items, i: nat, j: nat): Items
    requires i < |v| && j < |v|
  { v[i := v[j]][j := v[i]] }

  lemma SwapSame(v: Items, i: nat, j: nat)
    requires i < |v| && j < |v|
    ensures multiset(Swap(v, i, j)) == multiset(v)
    ensures Distinct(v) ==> Distinct(Swap(v, i, j))
  {
  }

  lemma SwapUp(v: Items, pos: nat)
    requires 0 < pos < |v| && OrderedButUp(v, pos) && v[Parent(pos)].val > v[pos].val
    ensures OrderedButUp(Swap(v, pos, Parent(pos)), Parent(pos))
  {
    var p, w := Parent(pos), Swap(v, pos, Parent(pos));
    forall i | 0 <= i < |w| && i != p ensures Below(w, i) {
      if i > 0 && Parent(i) == p { assert Below(v, i) || i == pos; }
      if i > 0 && i != pos { assert Below(v, i); }
    }
    assert Below(v, p);
    forall i | 0 < i < |w| && Parent(i) == p && p > 0 ensures w[Parent(p)].val <= w[i].val {
      if i != pos { assert Below(v, i); }
    }
  }

  /** `c` is a child of `pos` with the least value among the children. */
  lemma SwapDown(v: Items, pos: nat, c: nat)
    requires pos < |v| && 0 < c < |v| && Parent(c) == pos && OrderedButDown(v, pos) && v[c].val < v[pos].val
    requires forall i :: 0 < i < |v| && Parent(i) == pos ==> v[c].val <= v[i].val
    ensures OrderedButDown(Swap(v, pos, c), c)
  {
    var w := Swap(v, pos, c);
    forall i | 0 < i < |w| && Parent(i) != c ensures Below(w, i) {
      if Parent(i) != pos { assert Below(v, i); }
    }
    forall i | 0 < i < |w| && Parent(i) == c ensures w[Parent(c)].val <= w[i].val {
      assert Below(v, i);
    }
  }

  ghost function Refs(v: Items): set<Entry> { set x | x in v :: x.ref }

  /** Every entry but the one at `pos` knows the place of its item. */
  ghost predicate IndexedBut(v: Items, pos: int, S: set<Entry>)
    requires Refs(v) == S
    reads S`heapIdx
  {
    forall i :: 0 <= i < |v| && i != pos ==> assert v[i] in v; v[i].ref.heapIdx == i
  }

  lemma {:induction false} SameRefs(v: Items, w: Items)
    requires multiset(v) == multiset(w)
    ensures Refs(v) == Refs(w)
  {
    forall x ensures x in v <==> x in w { assert x in multiset(v) <==> x in multiset(w); }
  }

  /** A heap in order, with one item per entry, whose entries all know the place of their item. */
  ghost predicate Good(v: Items, S: set<Entry>)
    reads S`heapIdx
  { Refs(v) == S && Distinct(v) && Ordered(v) && IndexedBut(v, -1, S) }

  class Heap {
    var a: Items

    constructor ()
      ensures a == []
    {
      a := [];
    }

    /** `a[pos] = item; *a[pos].ref = pos`, where `v` is the heap with its item in flight at `pos`
        and `item` is the one at `p`. */
    method Put(pos: nat, item: HeapItem, ghost v: Items, ghost p: nat, ghost S: set<Entry>)
      requires pos < |a| == |v| && p < |v| && item == v[p] && Refs(v) == S && Distinct(v) && IndexedBut(v, pos, S)
      modifies this, S`heapIdx
      ensures a == old(a)[pos := item]
      ensures Refs(Swap(v, pos, p)) == S && IndexedBut(Swap(v, pos, p), p, S)
      ensures p == pos ==> IndexedBut(v, -1, S)
    {
      SwapSame(v, pos, p);
      SameRefs(v, Swap(v, pos, p));
      assert item in v;
      a := a[pos := item];
      item.ref.heapIdx := pos;
    }

    /** `heap_up` */
    method Up(start: nat, ghost S: set<Entry>)
      requires start < |a| && Refs(a) == S && Distinct(a) && OrderedButUp(a, start) && IndexedBut(a, start, S)
      modifies this, S`heapIdx
      ensures multiset(a) == old(multiset(a)) && Ordered(a) && Distinct(a)
      ensures Refs(a) == S && IndexedBut(a, -1, S)
    {
      hide OrderedButUp, Ordered, Distinct, IndexedBut, Refs;
      var pos := start;
      var t := a[pos];
      ghost var v := a;
      while pos > 0 && a[Parent(pos)].val > t.val
        invariant pos < |a| && v == a[pos := t] && multiset(v) == old(multiset(a)) && Refs(v) == S
        invariant Distinct(v) && OrderedButUp(v, pos) && IndexedBut(v, pos, S)
        decreases pos
      {
        var p := Parent(pos);
        SwapUp(v, pos);
        SwapSame(v, pos, p);
        Put(pos, a[p], v, p, S);
        v, pos := Swap(v, pos, p), p;
      }
      UpDone(v, pos);
      Put(pos, t, v, pos, S);
      assert a == v;
    }

    /** `heap_down` */
    method Down(start: nat, ghost S: set<Entry>)
      requires start < |a| && Refs(a) == S && Distinct(a) && OrderedButDown(a, start) && IndexedBut(a, start, S)
      modifies this, S`heapIdx
      ensures multiset(a) == old(multiset(a)) && Ordered(a) && Distinct(a)
      ensures Refs(a) == S && IndexedBut(a, -1, S)
    {
      hide OrderedButDown, Ordered, Distinct, IndexedBut, Refs;
      var pos := start;
      var t := a[pos];
      ghost var v := a;
      while true
        invariant pos < |a| && v == a[pos := t] && multiset(v) == old(multiset(a)) && Refs(v) == S
        invariant Distinct(v) && OrderedButDown(v, pos) && IndexedBut(v, pos, S)
        decreases |a| - pos
      {
        var l, r := Left(pos), Right(pos);
        var minPos, minVal := pos, t.val;
        if l < |a| && a[l].val < minVal {
          minPos, minVal := l, a[l].val;
        }
        if r < |a| && a[r].val < minVal {
          minPos := r;
        }
        LeastChild(v, pos, minPos);
        if minPos == pos {
          break;
        }
        SwapDown(v, pos, minPos);
        SwapSame(v, pos, minPos);
        Put(pos, a[minPos], v, minPos, S);
        v, pos := Swap(v, pos, minPos), minPos;
      }
      DownDone(v, pos);
      Put(pos, t, v, pos, S);
      assert a == v;
    }

    /** `heap_update`: one changed slot is put right by moving its item in one direction only. */
    method Update(pos: nat, ghost S: set<Entry>)
      requires pos < |a| && Refs(a) == S && Distinct(a) && OrderedBut(a, pos) && IndexedBut(a, pos, S)
      modifies this, S`heapIdx
      ensures multiset(a) == old(multiset(a)) && Ordered(a) && Distinct(a)
      ensures Refs(a) == S && IndexedBut(a, -1, S)
    {
      hide OrderedBut, OrderedButUp, OrderedButDown, Ordered, Distinct, IndexedBut, Refs;
      OneWay(a, pos);
      if pos > 0 && a[Parent(pos)].val > a[pos].val {
        Up(pos, S);
      } else {
        Down(pos, S);
      }
    }

    /** `heap_delete`: the last item fills the slot. */
    method Delete(pos: nat, ghost S: set<Entry>)
      requires pos < |a| && Good(a, S)
      modifies this, S`heapIdx
      ensures Good(a, S - {old(a[pos].ref)})
      ensures multiset(a) == old(multiset(a)) - multiset{old(a[pos])}
      ensures old(a[pos].ref).heapIdx == old(a[pos].ref.heapIdx)
    {
      hide OrderedBut, Ordered, Distinct, IndexedBut, Refs;
      Filled(a, pos, S);
      ghost var S' := S - {a[pos].ref};
      a := a[pos := a[|a| - 1]];
      a := a[..|a| - 1];
      if pos < |a| {
        Update(pos, S');
      }
    }

    /** `heap_upsert`: the item of an entry is overwritten in its place, or a new one appended. */
    method Upsert(at: int, item: HeapItem, ghost S: set<Entry>)
      requires Good(a, S)
      requires if 0 <= at < |a| then a[at].ref == item.ref else item.ref !in S
      modifies this, S`heapIdx, item.ref`heapIdx
      ensures Good(a, S + {item.ref})
      ensures var others := if 0 <= at < old(|a|) then old(multiset(a)) - multiset{old(a[at])} else old(multiset(a));
              multiset(a) == others + multiset{item}
    {
      hide OrderedBut, Ordered, Distinct, IndexedBut, Refs;
      Overwritten(a, at, item, S);
      var pos := at;
      if 0 <= pos < |a| {
        a := a[pos := item];
      } else {
        pos := |a|;
        a := a + [item];
      }
      Update(pos, S + {item.ref});
    }
  }

  lemma Filled(v: Items, pos: nat, S: set<Entry>)
    requires pos < |v| && Good(v, S)
    ensures var w := v[pos := v[|v| - 1]][..|v| - 1];
            var S' := S - {v[pos].ref};
            && multiset(w) == multiset(v) - multiset{v[pos]}
            && Distinct(w) && Refs(w) == S'
            && (pos < |w| ==> OrderedBut(w, pos) && IndexedBut(w, pos, S'))
            && (pos == |w| ==> Good(w, S'))
  {
    hide Ordered, OrderedBut, Refs, Distinct;
    var n := |v| - 1;
    var w := v[pos := v[n]][..n];
    assert v == v[..n] + [v[n]];
    if pos < n {
      assert w == v[..n][pos := v[n]];
    } else {
      assert w == v[..n];
    }
    FilledRefs(v, pos);
    FilledOrder(v, pos);
    assert forall i :: 0 <= i < |w| ==> w[i] in w;
  }

  lemma FilledRefs(v: Items, pos: nat)
    requires pos < |v| && Distinct(v)
    ensures var w := v[pos := v[|v| - 1]][..|v| - 1]; Distinct(w) && Refs(w) == Refs(v) - {v[pos].ref}
  {
    var n := |v| - 1;
    var w := v[pos := v[n]][..n];
    forall e ensures e in Refs(w) <==> e in Refs(v) - {v[pos].ref} {
      if e in Refs(w) {
        var i :| 0 <= i < |w| && w[i].ref == e;
        assert w[i] == v[if i == pos then n else i];
        assert v[if i == pos then n else i] in v;
      }
      if e in Refs(v) - {v[pos].ref} {
        var i :| 0 <= i < |v| && v[i].ref == e;
        assert w[if i == n then pos else i] == v[i];
        assert w[if i == n then pos else i] in w;
      }
    }
  }

  lemma FilledOrder(v: Items, pos: nat)
    requires pos < |v| && Ordered(v)
    ensures var w := v[pos := v[|v| - 1]][..|v| - 1];
            (pos < |w| ==> OrderedBut(w, pos)) && (pos == |w| ==> Ordered(w))
  {
    var w := v[pos := v[|v| - 1]][..|v| - 1];
    forall i | 0 <= i < |w| && i != pos && (i > 0 ==> Parent(i) != pos) ensures Below(w, i) {
      assert Below(v, i);
    }
    forall i | 0 < i < |w| && Parent(i) == pos && pos > 0 ensures w[Parent(pos)].val <= w[i].val {
      assert Below(v, i) && Below(v, pos);
    }
  }

  lemma Overwritten(v: Items, at: int, item: HeapItem, S: set<Entry>)
    requires Good(v, S)
    requires if 0 <= at < |v| then v[at].ref == item.ref else item.ref !in S
    ensures var inside := 0 <= at < |v|;
            var pos := if inside then at else |v|;
            var w := if inside then v[at := item] else v + [item];
            && multiset(w) == (if inside then multiset(v) - multiset{v[at]} else multiset(v)) + multiset{item}
            && Distinct(w) && Refs(w) == S + {item.ref}
            && OrderedBut(w, pos) && IndexedBut(w, pos, S + {item.ref})
  {
    var inside := 0 <= at < |v|;
    var pos := if inside then at else |v|;
    var w := if inside then v[at := item] else v + [item];
    OverwrittenRefs(v, at, item);
    forall i | 0 <= i < |w| && i != pos && (i > 0 ==> Parent(i) != pos) ensures Below(w, i) {
      assert Below(v, i);
    }
    forall i | 0 < i < |w| && Parent(i) == pos && pos > 0 ensures w[Parent(pos)].val <= w[i].val {
      assert Below(v, i) && Below(v, pos);
    }
    forall i | 0 <= i < |w| && i != pos ensures w[i].ref.heapIdx == i { assert v[i] in v; }
  }

  lemma OverwrittenRefs(v: Items, at: int, item: HeapItem)
    requires Distinct(v)
    requires if 0 <= at < |v| then v[at].ref == item.ref else item.ref !in Refs(v)
    ensures var w := if 0 <= at < |v| then v[at := item] else v + [item];
            Distinct(w) && Refs(w) == Refs(v) + {item.ref}
  {
    var w := if 0 <= at < |v| then v[at := item] else v + [item];
    assert forall i :: 0 <= i < |v| ==> v[i] in v;
    forall e ensures e in Refs(w) <==> e in Refs(v) + {item.ref} {
      if e in Refs(w) {
        var i :| 0 <= i < |w| && w[i].ref == e;
      }
      if e in Refs(v) {
        var i :| 0 <= i < |v| && v[i].ref == e;
        assert w[i] in w && w[i].ref == e;
      }
      assert item in w;
    }
  }

  /** The item in front is due first. */
  lemma {:induction false} RootLeast(v: Items, i: nat)
    requires Ordered(v) && i < |v|
    ensures v[0].val <= v[i].val
  {
    if i > 0 {
      RootLeast(v, Parent(i));
      assert Below(v, i);
    }
  }

  lemma UpDone(v: Items, pos: nat)
    requires pos < |v| && OrderedButUp(v, pos) && (pos > 0 ==> v[Parent(pos)].val <= v[pos].val)
    ensures Ordered(v)
  {}

  lemma DownDone(v: Items, pos: nat)
    requires pos < |v| && OrderedButDown(v, pos)
    requires forall i :: 0 < i < |v| && Parent(i) == pos ==> v[pos].val <= v[i].val
    ensures Ordered(v)
  {}

  /** What the comparisons of one round of `heap_down` found. */
  lemma LeastChild(v: Items, pos: nat, minPos: nat)
    requires pos < |v| && minPos < |v|
    requires var l, r := Left(pos), Right(pos);
             var first := if l < |v| && v[l].val < v[pos].val then l else pos;
             minPos == if r < |v| && v[r].val < v[first].val then r else first
    ensures forall i :: 0 < i < |v| && Parent(i) == pos ==> v[minPos].val <= v[i].val
    ensures minPos != pos ==> 0 < minPos && Parent(minPos) == pos && v[minPos].val < v[pos].val && minPos > pos
  {
    assert forall i :: 0 < i < |v| && Parent(i) == pos ==> i == Left(pos) || i == Right(pos);
  }

  lemma OneWay(v: Items, pos: nat)
    requires pos < |v| && OrderedBut(v, pos)
    ensures if pos > 0 && v[Parent(pos)].val > v[pos].val then OrderedButUp(v, pos) else OrderedButDown(v, pos)
  {
    if pos > 0 && v[Parent(pos)].val > v[pos].val {
      forall i | 0 <= i < |v| && i != pos ensures Below(v, i) {
        if i > 0 && Parent(i) == pos { assert v[Parent(pos)].val <= v[i].val; }
      }
    }
  }
}
