/** `src/kv_store.cpp`: entries in a hash map, deadlines in a heap that points back into the entries,
    and sorted sets inside entries. Together they stand for one `StoreSpec.Store`. */
module KvStore {
  import opened Bytes
  import opened Doubles
  import opened Decimals
  import opened HashMap
  import opened Wire
  import AvlNodes
  import opened ZSets
  import opened Entries
  import opened TtlHeap
  import opened Requests
  import opened StoreSpec

  // ---------- the parts of the state, as values ----------

  /** An entry as the hash map sees it. */
  function DbNode(e: Entry): HNode<Entry> { HNode(StrHash(e.key), e.key, e) }

  ghost predicate DbIndexed(E: set<Entry>, index: set<HNode<Entry>>) {
    && (forall e :: e in E ==> DbNode(e) in index)
    && (forall n :: n in index ==> n.owner in E && n == DbNode(n.owner))
    && KeysUnique(index)
  }

  type Deadlines = map<Entry, nat>
  type Contents = map<Entry, Content>

  function DeadlineOf(d: Deadlines, e: Entry): Option<nat> { if e in d then Some(d[e]) else None }

  /** The items of the heap carry the deadlines. */
  ghost predicate Timed(v: Items, d: Deadlines) { forall x :: x in v ==> x.ref in d && d[x.ref] == x.val }

  lemma TimedWithout(v: Items, w: Items, y: HeapItem, d: Deadlines)
    requires Timed(v, d) && multiset(w) == multiset(v) - multiset{y} && Refs(w) == d.Keys - {y.ref}
    ensures Timed(w, d - {y.ref})
  {
    forall x | x in w ensures x.ref in d - {y.ref} && d[x.ref] == x.val {
      assert x in multiset(w) && x in multiset(v) && x.ref in Refs(w);
    }
  }

  lemma TimedWith(v: Items, m: multiset<HeapItem>, w: Items, y: HeapItem, d: Deadlines)
    requires Timed(v, d) && Distinct(w) && m <= multiset(v) && multiset(w) == m + multiset{y}
    ensures Timed(w, d[y.ref := y.val])
  {
    assert y in multiset(w) && y in w;
    forall x | x in w ensures x.ref in d[y.ref := y.val] && d[y.ref := y.val][x.ref] == x.val {
      assert x in multiset(w);
      assert x == y || x in multiset(v);
    }
  }

  /** Some key has the deadline `d`. */
  ghost predicate HasDeadline(s: Store, d: nat) { exists k :: k in s && s[k].deadline == Some(d) }

  ghost predicate HasEntry(E: set<Entry>, key: bytes) { exists e :: e in E && e.key == key }

  /** `store` is what the entries stand for. */
  ghost predicate Stands(E: set<Entry>, c: Contents, d: Deadlines, store: Store) {
    && (forall e :: e in E ==> e in c && e.key in store && store[e.key] == Item(c[e], DeadlineOf(d, e)))
    && (forall k :: k in store ==> HasEntry(E, k))
  }

  ghost predicate Separate(z: ZSet, w: ZSet)
    reads z, w
  { z != w && z.hmap != w.hmap && z.nodes !! w.nodes }

  lemma StandsWithout(E: set<Entry>, c: Contents, d: Deadlines, store: Store, ent: Entry)
    requires Stands(E, c, d, store) && ent in E && forall e :: e in E && e.key == ent.key ==> e == ent
    ensures Stands(E - {ent}, c, d - {ent}, store - {ent.key})
  {
    var store' := store - {ent.key};
    forall k | k in store' ensures HasEntry(E - {ent}, k) {
      assert HasEntry(E, k);
      var e :| e in E && e.key == k;
      assert e in E - {ent};
    }
  }

  lemma DbWith(E: set<Entry>, index: set<HNode<Entry>>, ent: Entry)
    requires DbIndexed(E, index) && FreshKey(index, ent.key)
    ensures DbIndexed(E + {ent}, index + {DbNode(ent)})
  {}

  lemma StandsWith(E: set<Entry>, c: Contents, d: Deadlines, store: Store, ent: Entry, content: Content)
    requires Stands(E, c, d, store) && ent !in E && ent !in d && forall e :: e in E ==> e.key != ent.key
    ensures Stands(E + {ent}, c[ent := content], d, store[ent.key := Item(content, None)])
  {
    var store' := store[ent.key := Item(content, None)];
    forall k | k in store' ensures HasEntry(E + {ent}, k) {
      if k == ent.key {
        assert ent in E + {ent};
      } else {
        assert HasEntry(E, k);
        var e :| e in E && e.key == k;
        assert e in E + {ent};
      }
    }
  }

  /** A change to one entry changes one item of the store. */
  lemma StandsAgain(E: set<Entry>, c: Contents, d: Deadlines, c': Contents, d': Deadlines, store: Store, ent: Entry)
    requires Stands(E, c, d, store) && ent in E && forall e :: e in E && e.key == ent.key ==> e == ent
    requires ent in c' && forall e :: e in E && e != ent ==>
      e in c' && c'[e] == c[e] && DeadlineOf(d', e) == DeadlineOf(d, e)
    ensures Stands(E, c', d', store[ent.key := Item(c'[ent], DeadlineOf(d', ent))])
  {
    var store' := store[ent.key := Item(c'[ent], DeadlineOf(d', ent))];
    forall k | k in store' ensures HasEntry(E, k) {
      if k == ent.key { assert ent in E; }
    }
  }

  lemma DbWithout(E: set<Entry>, index: set<HNode<Entry>>, ent: Entry)
    requires DbIndexed(E, index)
    ensures DbIndexed(E - {ent}, index - {DbNode(ent)})
  {}

  ghost function ContentOf(e: Entry): Content
    reads e`str, e.zset
  { if e.isZset then Ranking(e.zset.scores) else Text(e.str) }

  /** `entry_eq` */
  function KeyEq(key: bytes): HNode<Entry> -> bool { (n: HNode<Entry>) => n.key == key }

  /** `hnode_same` */
  function SameEntry(e: Entry): HNode<Entry> -> bool { (n: HNode<Entry>) => n.owner == e }

  twostate predicate Untouched(z: ZSet)
    reads z, z.hmap, z.nodes
  { unchanged(z) && unchanged(z.hmap) && unchanged(z.nodes) }

  class KVStore {
    const db: HMap<Entry>
    const heap: Heap
    const strtod: bytes -> Strtod

    /** Entries freed on this thread, and entries handed to the worker pool to be freed. */
    var freed: seq<Entry>
    var queued: seq<Entry>

    ghost var entries: set<Entry>

    /** All entries that have ever been in the map. */
    ghost var everIn: set<Entry>

    ghost var deadlines: Deadlines
    ghost var contents: Contents

    /** What the whole structure stands for. */
    ghost var store: Store

    ghost var Repr: set<object>

    ghost predicate FootOk(E: set<Entry>, R: set<object>)
      reads set e | e in E :: e.zset
    {
      && this in R && db in R && heap in R
      && forall e :: e in E ==> e in R && e.zset.Repr() <= R
    }

    ghost predicate DbOk(E: set<Entry>)
      reads db
    { db.Valid() && DbIndexed(E, db.nodes) }

    ghost predicate HeapOk(E: set<Entry>)
      reads heap, this`deadlines, E`heapIdx
    {
      && deadlines.Keys <= E && Good(heap.a, deadlines.Keys)
      && Timed(heap.a, deadlines)
      && (forall e :: e in E && e !in deadlines ==> e.heapIdx == NO_INDEX)
    }

    ghost predicate SetsOk(E: set<Entry>)
      reads set e | e in E :: e.zset
      reads set e | e in E :: e.zset.hmap
      reads set e, x | e in E && x in e.zset.nodes :: x
    {
      && (forall e :: e in E ==> e.zset.Valid())
      && (forall e, f :: e in E && f in E && e != f ==> Separate(e.zset, f.zset))
    }

    ghost predicate ContentsOk(E: set<Entry>, c: Contents)
      reads E`str, set e | e in E :: e.zset
    { forall e :: e in E ==> e in c && c[e] == ContentOf(e) }

    /** Of the entries `V` that were ever in the map, those that are not in `E` any more, and only those,
        have been disposed of, each exactly once. */
    ghost predicate DisposalOk(E: set<Entry>, V: set<Entry>)
      reads this`freed, this`queued
    {
      && NoDup(freed + queued) && E <= V
      && (forall e :: e in freed + queued ==> e in V && e !in E)
      && (forall e :: e in V && e !in E ==> e in freed + queued)
    }

    ghost predicate Valid()
      reads this, db, heap, entries
      reads set e | e in entries :: e.zset
      reads set e | e in entries :: e.zset.hmap
      reads set e, x | e in entries && x in e.zset.nodes :: x
    {
      && DbOk(entries) && HeapOk(entries) && SetsOk(entries) && ContentsOk(entries, contents)
      && DisposalOk(entries, everIn)
      && Stands(entries, contents, deadlines, store) && FootOk(entries, Repr)
    }

    constructor (strtod: bytes -> Strtod)
      ensures Valid() && store == map[] && everIn == {} && this.strtod == strtod && fresh(Repr)
    {
      db := new HMap();
      heap := new Heap();
      this.strtod := strtod;
      freed, queued := [], [];
      entries, everIn, deadlines, contents, store := {}, {}, map[], map[], map[];
      Repr := {this, db, heap};
    }

    /** `hm_lookup(&db, &key.node, &entry_eq)` */
    method Find(key: bytes) returns (ent: Entry?)
      requires Valid()
      modifies db
      ensures Valid()
      ensures ent == null <==> key !in store
      ensures ent != null ==> ent in entries && ent.key == key
    {
      hide FootOk, HeapOk, SetsOk, ContentsOk, DisposalOk, HMap.Valid, DbIndexed, Stands, NoMatch, StrHash;
      var found := db.Lookup(StrHash(key), KeyEq(key));
      FoundByKey(key, found);
      ent := if found.Some? then found.value.owner else null;
    }

    lemma FoundByKey(key: bytes, found: Option<HNode<Entry>>)
      requires DbIndexed(entries, db.nodes) && Stands(entries, contents, deadlines, store)
      requires found.Some? ==> found.value in db.nodes && KeyEq(key)(found.value)
      requires found.None? ==> NoMatch(db.nodes, StrHash(key), KeyEq(key))
      ensures found.None? ==> key !in store
      ensures found.Some? ==> var e := found.value.owner; e in entries && e.key == key && key in store
    {
      forall e | e in entries ensures found.None? ==> e.key != key {
        assert DbNode(e) in db.nodes;
      }
    }

    /** `entry_set_ttl`: a negative duration removes the deadline. */
    method SetTtl(ent: Entry, ttl: int, now: nat, ghost E: set<Entry>)
      requires HeapOk(E) && ent in E
      modifies heap, this`deadlines, E`heapIdx
      ensures HeapOk(E)
      ensures deadlines == if ttl < 0 then old(deadlines) - {ent} else old(deadlines)[ent := now + ttl]
      ensures unchanged(`entries) && unchanged(`contents) && unchanged(`store)
    {
      hide Ordered, Distinct, Timed, IndexedBut, Refs;
      HeapPlace(ent, E);
      ghost var S, v, d := deadlines.Keys, heap.a, deadlines;
      if ttl < 0 && ent.heapIdx != NO_INDEX {
        heap.Delete(ent.heapIdx, S);
        TimedWithout(v, heap.a, HeapItem(d[ent], ent), d);
        ent.heapIdx := NO_INDEX;
        deadlines := deadlines - {ent};
        assert deadlines.Keys == S - {ent};
      } else if ttl >= 0 {
        heap.Upsert(ent.heapIdx, HeapItem(now + ttl, ent), S);
        TimedWith(v, if ent in d then multiset(v) - multiset{HeapItem(d[ent], ent)} else multiset(v), heap.a,
            HeapItem(now + ttl, ent), d);
        deadlines := deadlines[ent := now + ttl];
        assert deadlines.Keys == S + {ent};
      }
    }

    /** An entry has a deadline exactly when it has a heap index, and then its item is there. */
    lemma HeapPlace(ent: Entry, E: set<Entry>)
      requires HeapOk(E) && ent in E
      ensures ent in deadlines <==> ent.heapIdx != NO_INDEX
      ensures ent in deadlines ==>
        0 <= ent.heapIdx < |heap.a| && heap.a[ent.heapIdx] == HeapItem(deadlines[ent], ent)
      ensures ent !in deadlines ==> ent !in Refs(heap.a)
    {
      if ent in deadlines {
        var x :| x in heap.a && x.ref == ent;
        var i :| 0 <= i < |heap.a| && heap.a[i] == x;
      }
    }

    /** Keys identify entries. */
    lemma UniqueKey(ent: Entry)
      requires DbOk(entries) && ent in entries
      ensures forall e :: e in entries && e.key == ent.key ==> e == ent
    {
      forall e | e in entries && e.key == ent.key ensures e == ent {
        assert DbNode(e) in db.nodes && DbNode(ent) in db.nodes;
      }
    }

    /** `entry_del`: the deadline goes, and the entry is freed here or, if it is large, by the pool. */
    method EntryDel(ent: Entry, ghost E: set<Entry>)
      requires HeapOk(E) && ent in E && ent.zset.Valid() && DisposalOk(E, everIn)
      modifies heap, this`deadlines, this`freed, this`queued, E`heapIdx
      ensures HeapOk(E - {ent}) && deadlines == old(deadlines) - {ent} && DisposalOk(E - {ent}, everIn)
      ensures if ent.isZset && |ent.zset.hmap.nodes| > 1000
              then queued == old(queued) + [ent] && freed == old(freed)
              else freed == old(freed) + [ent] && queued == old(queued)
      ensures multiset(freed + queued) == old(multiset(freed + queued)) + multiset{ent}
      ensures unchanged(`entries) && unchanged(`contents) && unchanged(`store)
    {
      hide HeapOk, DisposalOk, ZSet.Valid;
      SetTtl(ent, -1, 0, E);
      WithoutDeadline(ent, E);
      Dispose(ent, E);
    }

    lemma WithoutDeadline(ent: Entry, E: set<Entry>)
      requires HeapOk(E) && ent !in deadlines
      ensures HeapOk(E - {ent})
    {}

    /** The end of `entry_del`. */
    method Dispose(ent: Entry, ghost E: set<Entry>)
      requires ent in E && ent.zset.Valid() && DisposalOk(E, everIn)
      modifies this`freed, this`queued
      ensures DisposalOk(E - {ent}, everIn)
      ensures if ent.isZset && |ent.zset.hmap.nodes| > 1000
              then queued == old(queued) + [ent] && freed == old(freed)
              else freed == old(freed) + [ent] && queued == old(queued)
      ensures multiset(freed + queued) == old(multiset(freed + queued)) + multiset{ent}
    {
      hide ZSet.TreeOk, HMap.Valid, Indexed, Named, NoDup;
      NoDupSnoc(freed, queued, ent);
      CountSnoc(freed, queued, ent);
      var setSize := 0;
      if ent.isZset {
        setSize := ent.zset.hmap.Size();
      }
      if setSize > 1000 {
        queued := queued + [ent];
      } else {
        freed := freed + [ent];
      }
    }

    lemma FewerEntries(ent: Entry)
      requires ent in entries && SetsOk(entries) && ContentsOk(entries, contents) && FootOk(entries, Repr)
      ensures FootOk(entries - {ent}, Repr) && ent.zset.Valid() && SetsOk(entries - {ent}) &&
          ContentsOk(entries - {ent}, contents)
    {
    }

    /** The rest of every removal, once the entry is out of the hash map. */
    method Discard(ent: Entry)
      requires ent in entries && forall e :: e in entries && e.key == ent.key ==> e == ent
      requires DbOk(entries - {ent}) && HeapOk(entries) && SetsOk(entries) && ContentsOk(entries, contents)
      requires DisposalOk(entries, everIn) && Stands(entries, contents, deadlines, store) && FootOk(entries, Repr)
      modifies this, heap, entries`heapIdx
      ensures Valid() && entries == old(entries) - {ent}
      ensures store == old(store) - {ent.key} && deadlines == old(deadlines) - {ent}
      ensures multiset(freed + queued) == old(multiset(freed + queued)) + multiset{ent}
      ensures Repr == old(Repr) && everIn == old(everIn)
    {
      hide DbOk, FootOk, HeapOk, SetsOk, ContentsOk, DisposalOk, Stands, ZSet.Valid;
      StandsWithout(entries, contents, deadlines, store, ent);
      FewerEntries(ent);
      EntryDel(ent, entries);
      Forget(ent);
    }

    /** The ghost state follows. */
    ghost method Forget(ent: Entry)
      requires DbOk(entries - {ent}) && HeapOk(entries - {ent}) && SetsOk(entries - {ent}) &&
          ContentsOk(entries - {ent}, contents)
      requires DisposalOk(entries - {ent}, everIn) && Stands(entries - {ent}, contents, deadlines, store - {ent.key})
      requires FootOk(entries - {ent}, Repr)
      modifies `store, `entries
      ensures Valid() && entries == old(entries) - {ent} && store == old(store) - {ent.key}
    {
      hide DbOk, FootOk, HeapOk, SetsOk, ContentsOk, DisposalOk, Stands, ZSet.Valid;
      store := store - {ent.key};
      entries := entries - {ent};
    }

    // ---------- expiry ----------

    /** One round of `process_timers`: the entry in front of the heap leaves, and the lookup of its
        node in the hash map cannot fail. */
    method ExpireFirst() returns (ent: Entry)
      requires Valid() && heap.a != []
      modifies this, db, heap, entries`heapIdx
      ensures Valid() && entries == old(entries) - {ent} && ent in old(entries)
      ensures store == old(store) - {ent.key} && deadlines == old(deadlines) - {ent}
      ensures ent in old(deadlines) && old(deadlines)[ent] == old(heap.a[0].val)
      ensures forall e :: e in old(deadlines) ==> old(deadlines)[ent] <= old(deadlines)[e]
      ensures multiset(freed + queued) == old(multiset(freed + queued)) + multiset{ent}
      ensures Repr == old(Repr) && everIn == old(everIn)
    {
      hide FootOk, HeapOk, SetsOk, ContentsOk, DisposalOk, HMap.Valid, DbIndexed, Stands, NoMatch, StrHash;
      FirstDue();
      ent := heap.a[0].ref;
      UniqueKey(ent);
      var found := db.Delete(StrHash(ent.key), SameEntry(ent));
      DeletedEntry(old(db.nodes), entries, ent, found);
      assert found == Some(DbNode(ent));
      DbWithout(entries, old(db.nodes), ent);
      Discard(ent);
    }

    lemma FirstDue()
      requires HeapOk(entries) && heap.a != []
      ensures var ent := heap.a[0].ref;
              && ent in entries && ent in deadlines && deadlines[ent] == heap.a[0].val
              && forall e :: e in deadlines ==> deadlines[ent] <= deadlines[e]
    {
      assert heap.a[0] in heap.a;
      forall e | e in deadlines ensures heap.a[0].val <= deadlines[e] {
        HeapPlace(e, entries);
        RootLeast(heap.a, e.heapIdx);
      }
    }

    /** `process_timers`: up to 2001 entries that are due leave, the ones due first before the others. */
    method ProcessTimers(now: nat) returns (ghost removed: seq<Entry>)
      requires Valid()
      modifies this, db, heap, entries`heapIdx
      ensures Valid() && Removal(old(entries), old(deadlines), old(store), removed, entries, deadlines, store)
      ensures InTurn(old(deadlines), removed, deadlines, now)
      ensures |removed| <= 2001 && (|removed| < 2001 ==> NothingDue(deadlines, now))
      ensures removed == [] ==> NothingDue(old(deadlines), now)
      ensures PartReap(old(store), store, now)
      ensures multiset(freed + queued) == old(multiset(freed + queued)) + multiset(removed)
      ensures Repr == old(Repr) && everIn == old(everIn)
    {
      hide Valid, HeapOk, Removal, InTurn, NothingDue, Stands, PartReap;
      var nworks := 0;
      removed := [];
      NothingRemoved(entries, deadlines, store, now);
      PartReapSelf(store, now);
      while heap.a != [] && heap.a[0].val <= now
        invariant Valid() && Removal(old(entries), old(deadlines), old(store), removed, entries, deadlines, store)
        invariant InTurn(old(deadlines), removed, deadlines, now)
        invariant PartReap(old(store), store, now) && Repr == old(Repr) && everIn == old(everIn)
        invariant nworks == |removed| <= 2000 && (removed == [] ==> deadlines == old(deadlines))
        invariant multiset(freed + queued) == old(multiset(freed + queued)) + multiset(removed)
        decreases entries
      {
        ghost var E, d, s, c := entries, deadlines, store, contents;
        StandsNow();
        var ent := ExpireFirst();
        RemovedWasDue(E, c, d, s, ent, now);
        PartReapTwice(old(store), s, store, now);
        OneMoreRemoved(old(entries), old(deadlines), old(store), removed, E, d, s, ent, now);
        removed := removed + [ent];
        if nworks >= 2000 {
          return;
        }
        nworks := nworks + 1;
      }
      NoneDue(now);
    }

    lemma StandsNow()
      requires Valid()
      ensures Stands(entries, contents, deadlines, store)
    {}

    lemma NoneDue(now: nat)
      requires Valid()
      ensures heap.a == [] || heap.a[0].val > now ==> NothingDue(deadlines, now)
    {
      if heap.a != [] {
        FirstDue();
      } else {
        forall e | e in deadlines ensures false { HeapPlace(e, entries); }
      }
    }

    /** The loop at the start of `execute`: exactly what is due leaves. */
    method ReapDue(now: nat)
      requires Valid()
      modifies this, db, heap, entries`heapIdx
      ensures Valid() && store == Reap(old(store), now) && entries <= old(entries)
      ensures Repr == old(Repr) && everIn == old(everIn)
    {
      hide Valid, Removal, InTurn, NothingDue, Stands, PartReap, Reap;
      PartReapSelf(store, now);
      while heap.a != [] && heap.a[0].val <= now
        invariant Valid() && PartReap(old(store), store, now) && entries <= old(entries)
        invariant Repr == old(Repr) && everIn == old(everIn)
        decreases entries
      {
        StillDue(now);
        ghost var s, E, d := store, entries, deadlines;
        ghost var removed := ProcessTimers(now);
        PartReapTwice(old(store), s, store, now);
        RemovalShrinks(E, d, s, removed, entries, deadlines, store);
      }
      NoneDue(now);
      StandsNow();
      AllReaped(entries, contents, deadlines, store, old(store), now);
    }

    /** `next_timer_ms`: no deadline is slept through, and the sleep ends at the earliest one. */
    method NextTimerMs(now: nat) returns (ms: nat)
      requires Valid()
      ensures ms == 0xFFFF_FFFF <==> forall d: nat :: HasDeadline(store, d) ==> d >= 0xFFFF_FFFF_FFFF_FFFF
      ensures ms != 0xFFFF_FFFF ==> forall d: nat :: HasDeadline(store, d) && d > now ==> now + ms <= d
      ensures ms != 0xFFFF_FFFF ==>
        || (ms == 0 && exists d: nat :: HasDeadline(store, d) && d <= now)
        || HasDeadline(store, now + ms)
        || (ms == 0x7FFF_FFFF && forall d: nat :: HasDeadline(store, d) ==> now + ms < d)
    {
      hide DbOk, FootOk, SetsOk, ContentsOk, DisposalOk, Ordered, Distinct, IndexedBut;
      Earliest();
      var next := 0xFFFF_FFFF_FFFF_FFFF;
      if heap.a != [] && heap.a[0].val < next { next := heap.a[0].val; }
      if next == 0xFFFF_FFFF_FFFF_FFFF { return 0xFFFF_FFFF; }
      assert HasDeadline(store, next) && now + (next - now) == next;
      if next <= now { return 0; }
      return if next - now < 0x7FFF_FFFF then next - now else 0x7FFF_FFFF;
    }

    lemma Earliest()
      requires Valid()
      ensures heap.a == [] ==> forall k :: k in store ==> store[k].deadline.None?
      ensures heap.a != [] ==> forall k :: k in store && store[k].deadline.Some? ==>
          heap.a[0].val <= store[k].deadline.value
      ensures heap.a != [] ==> var k := heap.a[0].ref.key; k in store && store[k].deadline == Some(heap.a[0].val)
    {
      hide DbOk, FootOk, SetsOk, ContentsOk, DisposalOk, Ordered, Distinct, IndexedBut;
      if heap.a != [] { FirstDue(); }
      forall k | k in store ensures exists e :: e in entries && store[k].deadline == DeadlineOf(deadlines, e) {
        assert HasEntry(entries, k);
      }
      if heap.a == [] { assert deadlines.Keys == {}; }
    }

    lemma StillDue(now: nat)
      requires Valid() && heap.a != [] && heap.a[0].val <= now
      ensures !NothingDue(deadlines, now)
    {
      FirstDue();
    }

    // ---------- entries and what they hold ----------

    /** `entry_new` and `hm_insert` for a key that is not there. */
    method AddEntry(key: bytes, isZset: bool, str: bytes) returns (ent: Entry)
      requires Valid() && key !in store
      modifies `entries, `everIn, `contents, `store, `Repr, db
      ensures everIn == old(everIn) + {ent}
      ensures Valid() && entries == old(entries) + {ent} && ent.key == key && ent.isZset == isZset
      ensures store == old(store)[key := Item(if isZset then Ranking(map[]) else Text(str), None)]
      ensures fresh(ent) && fresh(ent.zset.Repr()) && Repr >= old(Repr) && fresh(Repr - old(Repr))
    {
      hide FootOk, HeapOk, SetsOk, ContentsOk, DisposalOk, Stands, DbIndexed, HMap.Valid, ZSet.Valid, FreshKey, StrHash;
      NewKey(key);
      ent := new Entry(key, isZset, str);
      assert ent !in everIn && ent !in freed + queued;
      db.Insert(DbNode(ent));
      DbWith(entries, old(db.nodes), ent);
      Enroll(ent);
    }

    /** The new entry, now in the hash map, becomes part of what the structure stands for. */
    ghost method Enroll(ent: Entry)
      requires DbOk(entries + {ent}) && HeapOk(entries) && SetsOk(entries) && ContentsOk(entries, contents)
      requires DisposalOk(entries, everIn) && Stands(entries, contents, deadlines, store) && FootOk(entries, Repr)
      requires ent !in everIn && ent.heapIdx == NO_INDEX && ent !in freed + queued && ent.zset.Valid()
      requires forall e :: e in entries ==> e.key != ent.key && Separate(e.zset, ent.zset)
      modifies `entries, `everIn, `contents, `store, `Repr
      ensures everIn == old(everIn) + {ent}
      ensures Valid() && entries == old(entries) + {ent} && Repr == old(Repr) + {ent} + ent.zset.Repr()
      ensures store == old(store)[ent.key := Item(ContentOf(ent), None)]
    {
      hide DbOk, FootOk, HeapOk, SetsOk, ContentsOk, DisposalOk, Stands, ZSet.Valid;
      DeadlinesInside();
      OnceIn();
      MoreEntries(entries, contents, ent, Repr);
      StandsWith(entries, contents, deadlines, store, ent, ContentOf(ent));
      store := store[ent.key := Item(ContentOf(ent), None)];
      entries, everIn, contents := entries + {ent}, everIn + {ent}, contents[ent := ContentOf(ent)];
      Repr := Repr + {ent} + ent.zset.Repr();
    }

    lemma OnceIn()
      requires DisposalOk(entries, everIn)
      ensures entries <= everIn
    {}

    lemma DeadlinesInside()
      requires HeapOk(entries)
      ensures deadlines.Keys <= entries
    {}

    lemma MoreEntries(E: set<Entry>, c: Contents, ent: Entry, R: set<object>)
      requires HeapOk(E) && SetsOk(E) && ContentsOk(E, c) && DisposalOk(E, everIn)
      requires ent !in E && ent.heapIdx == NO_INDEX && ent !in freed + queued && ent.zset.Valid()
      requires FootOk(E, R) && forall e :: e in E ==> Separate(e.zset, ent.zset)
      ensures FootOk(E + {ent}, R + {ent} + ent.zset.Repr())
      ensures HeapOk(E + {ent}) && SetsOk(E + {ent}) && ContentsOk(E + {ent}, c[ent := ContentOf(ent)]) &&
          DisposalOk(E + {ent}, everIn + {ent})
    {
      hide Good, Timed, ZSet.Valid, NoDup;
    }

    lemma NewKey(key: bytes)
      requires DbOk(entries) && Stands(entries, contents, deadlines, store) && key !in store
      ensures FreshKey(db.nodes, key) && forall e :: e in entries ==> e.key != key
    {}

    /** What an entry holds is what the store has under its key. */
    lemma Holds(ent: Entry)
      requires Valid() && ent in entries
      ensures ent.key in store && store[ent.key] == Item(ContentOf(ent), DeadlineOf(deadlines, ent))
      ensures entries <= contents.Keys && contents[ent] == ContentOf(ent) && ent.zset.Valid()
      ensures forall e :: e in entries && e.key == ent.key ==> e == ent
    {
      UniqueKey(ent);
    }

    /** The ghost state follows a change to one entry. */
    ghost method Amend(ent: Entry, c: Contents, d: Deadlines)
      requires ent in entries && ent in c && forall e :: e in entries && e.key == ent.key ==> e == ent
      requires DbOk(entries) && HeapOk(entries) && SetsOk(entries) && ContentsOk(entries, c)
      requires DisposalOk(entries, everIn)
      requires Stands(entries, contents, d, store) && FootOk(entries, Repr)
      requires forall e :: e in entries && e != ent ==>
        e in c && e in contents && c[e] == contents[e] && DeadlineOf(deadlines, e) == DeadlineOf(d, e)
      modifies `contents, `store
      ensures Valid() && contents == c && store == old(store)[ent.key := Item(c[ent], DeadlineOf(deadlines, ent))]
    {
      hide DbOk, FootOk, HeapOk, SetsOk, ContentsOk, DisposalOk, Stands, ZSet.Valid;
      StandsAgain(entries, contents, d, c, deadlines, store, ent);
      contents, store := c, store[ent.key := Item(c[ent], DeadlineOf(deadlines, ent))];
    }

    /** `ent->str = str` */
    method SetText(ent: Entry, str: bytes)
      requires Valid() && ent in entries && !ent.isZset
      modifies this`contents, this`store, ent`str
      ensures Valid()
      ensures store == old(store)[ent.key := old(store)[ent.key].(content := Text(str))]
    {
      hide DbOk, FootOk, HeapOk, SetsOk, DisposalOk, Stands;
      Holds(ent);
      ent.str := str;
      ghost var c := contents[ent := Text(str)];
      Amend(ent, c, deadlines);
    }

    /** `entry_set_ttl` on an entry of the map. */
    method SetDeadline(ent: Entry, ttl: int, now: nat)
      requires Valid() && ent in entries
      modifies this`contents, this`deadlines, this`store, heap, entries`heapIdx
      ensures Valid()
      ensures var deadline := if ttl < 0 then None else Some(now + ttl);
              store == old(store)[ent.key := old(store)[ent.key].(deadline := deadline)]
    {
      hide DbOk, FootOk, HeapOk, SetsOk, ContentsOk, DisposalOk, Stands;
      Holds(ent);
      ghost var d := deadlines;
      SetTtl(ent, ttl, now, entries);
      Amend(ent, contents, d);
    }

    /** Work on one sorted set leaves the others alone. */
    method InsertIn(ent: Entry, name: bytes, score: Double, ghost E: set<Entry>, ghost R: set<object>,
        ghost c: Contents)
      returns (added: bool, ghost R': set<object>)
      requires SetsOk(E) && ent in E && FootOk(E, R) && ContentsOk(E, c) && ent.isZset
      modifies ent.zset.Repr()
      ensures SetsOk(E) && FootOk(E, R') && R' >= R && fresh(R' - R)
      ensures added <==> name !in old(ent.zset.scores)
      ensures ent.zset.scores == Put(old(ent.zset.scores), name, score)
      ensures ContentsOk(E, c[ent := Ranking(ent.zset.scores)])
    {
      hide ZSet.Valid, Put;
      added := ent.zset.Insert(name, score);
      forall e | e in E && e != ent ensures Untouched(e.zset) { assert old(Separate(e.zset, ent.zset)); }
      R' := R + ent.zset.Repr();
    }

    method DeleteIn(ent: Entry, node: AvlNodes.ZNode, ghost E: set<Entry>, ghost R: set<object>, ghost c: Contents)
      returns (ghost R': set<object>)
      requires SetsOk(E) && ent in E && node in ent.zset.nodes && FootOk(E, R) && ContentsOk(E, c) && ent.isZset
      modifies ent.zset.Repr()
      ensures SetsOk(E) && FootOk(E, R') && R' >= R && fresh(R' - R)
      ensures ent.zset.scores == old(ent.zset.scores) - {node.name}
      ensures ContentsOk(E, c[ent := Ranking(ent.zset.scores)])
    {
      hide ZSet.Valid;
      ent.zset.Delete(node);
      forall e | e in E && e != ent ensures Untouched(e.zset) { assert old(Separate(e.zset, ent.zset)); }
      R' := R + ent.zset.Repr();
    }

    /** `zset_insert` into the sorted set of an entry. */
    method AddMember(ent: Entry, name: bytes, score: Double) returns (added: bool)
      requires Valid() && ent in entries && ent.isZset
      modifies this`contents, this`store, this`Repr, ent.zset.Repr()
      ensures unchanged(`everIn)
      ensures Valid() && old(store)[ent.key].content.Ranking? && Repr >= old(Repr) && fresh(Repr - old(Repr))
      ensures added <==> name !in old(store)[ent.key].content.scores
      ensures var item := old(store)[ent.key];
              store == old(store)[ent.key := item.(content := Ranking(Put(item.content.scores, name, score)))]
    {
      hide DbOk, FootOk, HeapOk, SetsOk, ContentsOk, DisposalOk, Stands, ZSet.Valid, Put;
      Holds(ent);
      added, Repr := InsertIn(ent, name, score, entries, Repr, contents);
      assert DbOk(entries) && HeapOk(entries) && DisposalOk(entries, everIn);
      ghost var c := contents[ent := Ranking(ent.zset.scores)];
      Amend(ent, c, deadlines);
    }

    /** `zset_delete` in the sorted set of an entry. */
    method RemoveMember(ent: Entry, node: AvlNodes.ZNode)
      requires Valid() && ent in entries && ent.isZset && node in ent.zset.nodes
      modifies this`contents, this`store, this`Repr, ent.zset.Repr()
      ensures unchanged(`everIn)
      ensures Valid() && old(store)[ent.key].content.Ranking? && Repr >= old(Repr) && fresh(Repr - old(Repr))
      ensures var item := old(store)[ent.key];
              store == old(store)[ent.key := item.(content := Ranking(item.content.scores - {node.name}))]
    {
      hide DbOk, FootOk, HeapOk, SetsOk, ContentsOk, DisposalOk, Stands, ZSet.Valid, Put;
      Holds(ent);
      Repr := DeleteIn(ent, node, entries, Repr, contents);
      assert DbOk(entries) && HeapOk(entries) && DisposalOk(entries, everIn);
      ghost var c := contents[ent := Ranking(ent.zset.scores)];
      Amend(ent, c, deadlines);
    }

    lemma Inside()
      requires Valid()
      ensures this in Repr && db in Repr && heap in Repr
      ensures forall e :: e in entries ==> e in Repr && e.zset.Repr() <= Repr
    {}

    // ---------- commands ----------

    method DoGet(key: bytes, out: Buffer)
      requires Valid()
      modifies db, out
      ensures Valid() && out.data == old(out.data) + Encode(Get(store, key))
    {
      hide DbOk, FootOk, HeapOk, SetsOk, ContentsOk, DisposalOk, Stands, Encode, Ascii, ZSet.Valid;
      var ent := Find(key);
      if ent == null {
        out.Out(Nil);
      } else {
        Holds(ent);
        if ent.isZset {
          out.Out(BadType("not a string value"));
        } else {
          out.Out(Str(ent.str));
        }
      }
    }

    /** The first half of `do_set`: the text goes into an entry, old or new, unless a sorted set has the key. */
    method PutText(key: bytes, value: bytes) returns (ent: Entry?)
      requires Valid()
      modifies `entries, `everIn, `contents, `store, `Repr, db, entries`str
      ensures everIn >= old(everIn)
      ensures Valid() && Repr >= old(Repr) && fresh(Repr - old(Repr))
      ensures ent == null <==> key in old(store) && old(store)[key].content.Ranking?
      ensures ent == null ==> store == old(store)
      ensures ent != null ==> ent in entries && ent.key == key && key in store && store[key].content == Text(value)
      ensures ent != null ==> store == old(store)[key := store[key]]
    {
      hide Valid, ZSet.Valid;
      Inside();
      ent := Find(key);
      if ent == null {
        ent := AddEntry(key, false, value);
      } else {
        Holds(ent);
        if ent.isZset {
          ent := null;
        } else {
          SetText(ent, value);
        }
      }
    }

    method DoSet(key: bytes, value: bytes, out: Buffer)
      requires Valid()
      modifies Repr, out
      ensures Valid() && Repr >= old(Repr) && fresh(Repr - old(Repr)) && everIn >= old(everIn)
      ensures var r := Set(old(store), key, value); store == r.store && out.data == old(out.data) + Encode(r.reply)
    {
      hide Valid, Encode, Ascii, ZSet.Valid;
      Inside();
      var ent := PutText(key, value);
      if ent == null {
        out.Out(BadType("a non-string value exists"));
        return;
      }
      Inside();
      SetDeadline(ent, -1, 0);
      out.Out(Str(Ascii("OK")));
    }

    /** `hm_delete` by key, and `entry_del` of what it found. */
    method DeleteKey(key: bytes) returns (found: bool)
      requires Valid()
      modifies this, db, heap, entries`heapIdx
      ensures Valid() && Repr == old(Repr) && everIn == old(everIn)
      ensures found <==> key in old(store)
      ensures store == old(store) - {key}
    {
      hide FootOk, HeapOk, SetsOk, ContentsOk, DisposalOk, HMap.Valid, DbIndexed, Stands, NoMatch, StrHash;
      UniqueKeys();
      var node := db.Delete(StrHash(key), KeyEq(key));
      DeletedByKey(old(db.nodes), key, node);
      found := node.Some?;
      if found {
        DbWithout(entries, old(db.nodes), node.value.owner);
        Discard(node.value.owner);
      }
    }

    lemma UniqueKeys()
      requires DbOk(entries)
      ensures forall e, f :: e in entries && f in entries && e.key == f.key ==> e == f
    {
      forall e, f | e in entries && f in entries && e.key == f.key ensures e == f { UniqueKey(f); }
    }

    lemma DeletedByKey(index: set<HNode<Entry>>, key: bytes, found: Option<HNode<Entry>>)
      requires DbIndexed(entries, index) && Stands(entries, contents, deadlines, store)
      requires found.Some? ==> found.value in index && KeyEq(key)(found.value)
      requires found.None? ==> NoMatch(index, StrHash(key), KeyEq(key))
      ensures found.None? ==> key !in store
      ensures found.Some? ==>
        var e := found.value.owner; e in entries && e.key == key && key in store && found.value == DbNode(e)
    {
      forall e | e in entries ensures found.None? ==> e.key != key {
        assert DbNode(e) in index;
      }
    }

    method DoDel(key: bytes, out: Buffer)
      requires Valid()
      modifies Repr, out
      ensures Valid() && Repr == old(Repr) && everIn == old(everIn)
      ensures var r := StoreSpec.Del(old(store), key); store == r.store && out.data == old(out.data) + Encode(r.reply)
    {
      hide Valid, Encode;
      Inside();
      var found := DeleteKey(key);
      out.Out(Flag(found));
    }

    method DoExpire(key: bytes, ttl: bytes, now: nat, out: Buffer)
      requires Valid()
      modifies Repr, out
      ensures Valid() && Repr == old(Repr) && everIn == old(everIn)
      ensures var r := Expire(old(store), key, ttl, now);
              store == r.store && out.data == old(out.data) + Encode(r.reply)
    {
      hide Valid, Encode, Ascii, Parse;
      Inside();
      var ms := Parse(ttl);
      if ms.NotANumber? {
        out.Out(BadArg("expect int64"));
        return;
      }
      var ent := Find(key);
      if ent != null {
        Inside();
        if ms.value <= 0 {
          var found := DeleteKey(key);
        } else {
          SetDeadline(ent, ms.value, now);
        }
      }
      out.Out(Flag(ent != null));
    }

    method DoTtl(key: bytes, now: nat, out: Buffer)
      requires Valid()
      modifies db, out
      ensures Valid() && out.data == old(out.data) + Encode(Ttl(store, key, now))
    {
      hide FootOk, DbOk, HeapOk, SetsOk, ContentsOk, DisposalOk, Stands, Encode, ContentOf, ZSet.Valid;
      var ent := Find(key);
      if ent == null {
        out.Out(Int(-2));
        return;
      }
      Holds(ent);
      HeapPlace(ent, entries);
      if ent.heapIdx == NO_INDEX {
        out.Out(Int(-1));
        return;
      }
      var expireAt := heap.a[ent.heapIdx].val;
      out.Out(Int(if expireAt > now then expireAt - now else 0));
    }

    /** The sorted set of a key, made if the key is new; null if the key holds a text. */
    method ZsetOf(key: bytes) returns (ent: Entry?)
      requires Valid()
      modifies `entries, `everIn, `contents, `store, `Repr, db
      ensures everIn >= old(everIn)
      ensures Valid() && Repr >= old(Repr) && fresh(Repr - old(Repr))
      ensures ent == null <==> key in old(store) && old(store)[key].content.Text?
      ensures ent != null ==> ent in entries && ent.key == key && ent.isZset
      ensures store == if key in old(store) then old(store) else old(store)[key := Item(Ranking(map[]), None)]
    {
      hide Valid, ZSet.Valid;
      Inside();
      ent := Find(key);
      if ent == null {
        ent := AddEntry(key, true, []);
      } else {
        Holds(ent);
        if !ent.isZset {
          ent := null;
        }
      }
    }

    method DoZadd(key: bytes, scoreText: bytes, name: bytes, out: Buffer)
      requires Valid()
      modifies Repr, out
      ensures Valid() && Repr >= old(Repr) && fresh(Repr - old(Repr)) && everIn >= old(everIn)
      ensures var r := Zadd(old(store), key, ParseDouble(strtod, scoreText), name);
              store == r.store && out.data == old(out.data) + Encode(r.reply)
    {
      hide Valid, Encode, Ascii, ParseDouble, ZSet.Valid, Put;
      var score := ParseDouble(strtod, scoreText);
      if score.NotADouble? {
        out.Out(BadArg("expect float"));
        return;
      }
      Inside();
      var ent := ZsetOf(key);
      if ent == null {
        out.Out(BadType("expect zset"));
        return;
      }
      Inside();
      Holds(ent);
      var added := AddMember(ent, name, score.value);
      out.Out(Flag(added));
    }

    /** `zset_lookup` in the sorted set of an entry. */
    method LookupIn(ent: Entry, name: bytes, ghost E: set<Entry>) returns (node: AvlNodes.ZNode?)
      requires SetsOk(E) && ent in E
      modifies ent.zset.hmap
      ensures SetsOk(E)
      ensures node == null <==> name !in ent.zset.scores
      ensures node != null ==> node in ent.zset.nodes && node.name == name && node.score == ent.zset.scores[name]
    {
      hide ZSet.Valid;
      node := ent.zset.Lookup(name);
    }

    method FindMember(ent: Entry, name: bytes) returns (node: AvlNodes.ZNode?)
      requires Valid() && ent in entries && ent.isZset
      modifies ent.zset.hmap
      ensures Valid()
      ensures node == null <==> name !in ent.zset.scores
      ensures node != null ==> node in ent.zset.nodes && node.name == name && node.score == ent.zset.scores[name]
    {
      hide DbOk, FootOk, HeapOk, SetsOk, ContentsOk, DisposalOk, Stands, ZSet.Valid;
      node := LookupIn(ent, name, entries);
    }

    method DoZrem(key: bytes, name: bytes, out: Buffer)
      requires Valid()
      modifies Repr, out
      ensures Valid() && Repr >= old(Repr) && fresh(Repr - old(Repr)) && everIn >= old(everIn)
      ensures var r := Zrem(old(store), key, name);
              store == r.store && out.data == old(out.data) + Encode(r.reply)
    {
      hide Valid, Encode, Ascii, ZSet.Valid;
      Inside();
      var ent := Find(key);
      if ent == null {
        out.Out(Int(0));
        return;
      }
      Holds(ent);
      if !ent.isZset {
        out.Out(BadType("expect zset"));
        return;
      }
      var node := FindMember(ent, name);
      if node != null {
        RemoveMember(ent, node);
      }
      out.Out(Flag(node != null));
    }

    method DoZscore(key: bytes, name: bytes, out: Buffer)
      requires Valid()
      modifies Repr, out
      ensures Valid() && Repr == old(Repr) && everIn == old(everIn) && store == old(store)
      ensures out.data == old(out.data) + Encode(Zscore(store, key, name))
    {
      hide Valid, Encode, Ascii, ZSet.Valid;
      Inside();
      var ent := Find(key);
      if ent == null {
        out.Out(Nil);
        return;
      }
      Holds(ent);
      if !ent.isZset {
        out.Out(BadType("expect zset"));
        return;
      }
      var node := FindMember(ent, name);
      if node != null {
        out.Out(Dbl(node.score));
      } else {
        out.Out(Nil);
      }
    }

    // ---------- zquery ----------

    /** The walk of `do_zquery`: names and scores from rank `k` on until the limit is reached. */
    method EmitFrom(z: ZSet, start: AvlNodes.ZNode?, ghost k: int, limit: int, out: Buffer) returns (n: nat)
      requires z.Valid() && limit > 0 && start == z.NodeAt(k)
      modifies out
      ensures z.Valid() && var ms := Slice(z.Listing(), k, limit);
              out.data == old(out.data) + EncodeAll(Pairs(ms)) && n == |Pairs(ms)|
    {
      hide ZSet.Valid, Encode, Slice, Emitted, EncodeAll, Pairs;
      var node := start;
      n := 0;
      ghost var list, j := z.Listing(), 0;
      z.AtRank(k);
      EmittedNone(list, k);
      while node != null && n < limit
        invariant z.Valid() && z.Listing() == list && |list| == |z.tree.InOrder()|
        invariant node == z.NodeAt(k + j) && n == 2 * j && (j > 0 ==> 2 * (j - 1) < limit)
        invariant j > 0 ==> 0 <= k && k + j <= |list|
        invariant out.data == old(out.data) + Emitted(list, k, j)
        decreases limit - n
      {
        z.AtRank(k + j);
        assert list[k + j] == Member(node.name, node.score);
        out.Out(Str(node.name));
        out.Out(Dbl(node.score));
        OnePair(list, k, j);
        node := z.OffsetFrom(node, 1, k + j);
        j := j + 1;
        n := n + 2;
      }
      WholeSlice(list, k, j, limit);
    }

    /** The end of `do_zquery`, for a sorted set that is there. */
    method QuerySet(z: ZSet, score: Double, name: bytes, offset: int, limit: int, out: Buffer)
        returns (ghost reply: Value)
      requires z.Valid() && limit > 0
      modifies out
      ensures z.Valid() && QueryReply(z.scores, Member(name, score), offset, limit, reply)
      ensures out.data == old(out.data) + Encode(reply)
    {
      hide ZSet.Valid, Encode, EncodeAll, Pairs, Slice, QueryReply;
      ghost var list, k := z.Listing(), 0;
      var node;
      node, k := z.Seek(score, name);
      z.AtRank(0);
      z.ListingSorted();
      node := z.OffsetFrom(node, offset, k);
      ghost var from := if k == |list| then |list| else k + offset;
      ghost var before := out.data;
      var ctx := out.BeginArr();
      var n := EmitFrom(z, node, from, limit, out);
      ghost var items := Pairs(Slice(list, from, limit));
      out.EndArr(ctx, n, before, EncodeAll(items));
      reply := Arr(items);
      EncodeArr(items);
      Answer(list, z.scores, Member(name, score), k, offset, limit, reply);
    }

    method DoZquery(key: bytes, scoreText: bytes, name: bytes, offsetText: bytes, limitText: bytes, out: Buffer)
      returns (ghost reply: Value)
      requires Valid()
      modifies db, out
      ensures Valid() && Zquery(store, key, ParseDouble(strtod, scoreText), name, offsetText, limitText, reply)
      ensures out.data == old(out.data) + Encode(reply)
    {
      hide DbOk, FootOk, HeapOk, SetsOk, ContentsOk, DisposalOk, Stands, Encode, Ascii, ParseDouble, Parse,
          ZSet.Valid, QueryReply;
      var score := ParseDouble(strtod, scoreText);
      if score.NotADouble? {
        out.Out(BadArg("expect fp number"));
        reply := BadArg("expect fp number");
        return;
      }
      var offset, limit := Parse(offsetText), Parse(limitText);
      if offset.NotANumber? || limit.NotANumber? {
        out.Out(BadArg("expect int"));
        reply := BadArg("expect int");
        return;
      }
      var ent := Find(key);
      if ent != null {
        Holds(ent);
        if !ent.isZset {
          out.Out(BadType("expect zset"));
          reply := BadType("expect zset");
          return;
        }
      }
      EncodeArr([]);
      if limit.value <= 0 {
        out.OutArr(0);
        reply := Arr([]);
        return;
      }
      if ent == null {
        ghost var before := out.data;
        var ctx := out.BeginArr();
        out.EndArr(ctx, 0, before, []);
        reply := Arr([]);
        NoMembers(Member(name, score.value), offset.value, limit.value);
      } else {
        reply := QuerySet(ent.zset, score.value, name, offset.value, limit.value, out);
      }
    }

    // ---------- keys ----------

    /** The walk of `do_keys` meets the key of every entry once. */
    lemma WalkKeys(visited: seq<HNode<Entry>>)
      requires Valid() && NoDup(visited) && forall n :: n in visited <==> n in db.nodes
      ensures multiset(KeysOf(visited)) == multiset(store.Keys)
    {
      hide HeapOk, SetsOk, ContentsOk, DisposalOk, FootOk, HMap.Load;
      var keys := KeysOf(visited);
      forall j, k | 0 <= j < k < |keys| ensures keys[j] != keys[k] {
        assert visited[j] in visited && visited[k] in visited;
      }
      forall key ensures key in keys <==> key in store.Keys {
        if key in keys {
          var j :| 0 <= j < |keys| && keys[j] == key;
          assert visited[j] in visited;
        }
        if key in store {
          assert HasEntry(entries, key);
          var e :| e in entries && e.key == key;
          assert DbNode(e) in visited;
          var j :| 0 <= j < |visited| && visited[j] == DbNode(e);
          assert keys[j] == key;
        }
      }
      NoDupMultiset(keys, store.Keys);
    }

    /** `hm_foreach` with a visitor that never stops. */
    method Walk() returns (visited: seq<HNode<Entry>>)
      requires Valid()
      ensures Valid() && multiset(KeysOf(visited)) == multiset(store.Keys) && |visited| == |db.nodes|
    {
      hide HeapOk, SetsOk, ContentsOk, DisposalOk, FootOk, Stands, DbIndexed, HMap.Tables, HMap.Load, NoDup;
      var all := (n: HNode<Entry>) => true;
      visited := db.ForEach(all);
      db.EachOnce();
      ghost var walk := Flat(db.newer.tab) + Flat(db.older.tab);
      ThroughAll(walk, [], all);
      assert walk + [] == walk;
      WalkKeys(visited);
    }

    /** `hm_size` of the key space. */
    method Count() returns (size: nat)
      requires Valid()
      ensures size == |db.nodes|
    {
      size := db.Size();
    }

    method DoKeys(out: Buffer) returns (ghost reply: Value)
      requires Valid()
      modifies out
      ensures Valid() && Keys(store, reply) && out.data == old(out.data) + Encode(reply)
    {
      hide Valid, Encode, EncodeAll;
      var size := Count();
      out.OutArr(size);
      ghost var head := out.data;
      var visited := Walk();
      ghost var keys := KeysOf(visited);
      var i := 0;
      NothingYet(keys);
      while i < |visited|
        invariant i <= |visited| && out.data == head + EncodeAll(Strs(keys[..i]))
        invariant Valid() && multiset(keys) == multiset(store.Keys)
      {
        out.Out(Str(visited[i].key));
        OneKey(keys, i);
        i := i + 1;
      }
      assert keys[..|keys|] == keys;
      reply := Arr(Strs(keys));
      EncodeArr(Strs(keys));
    }

    // ---------- execute ----------

    method DoExists(key: bytes, out: Buffer)
      requires Valid()
      modifies db, out
      ensures Valid() && out.data == old(out.data) + Encode(Flag(key in store))
    {
      hide Valid, Encode;
      var ent := Find(key);
      out.Out(Flag(ent != null));
    }

    method DoType(key: bytes, out: Buffer)
      requires Valid()
      modifies db, out
      ensures Valid() && out.data == old(out.data) + Encode(Str(Ascii(TypeName(store, key))))
    {
      hide DbOk, FootOk, HeapOk, SetsOk, ContentsOk, DisposalOk, Stands, Encode, Ascii, ZSet.Valid;
      var ent := Find(key);
      if ent != null { Holds(ent); }
      out.Out(Str(Ascii(if ent == null then "none" else if ent.isZset then "zset" else "string")));
    }

    method DoPersist(key: bytes, out: Buffer)
      requires Valid()
      modifies Repr, out
      ensures Valid() && Repr == old(Repr) && everIn == old(everIn)
      ensures var r := Persist(old(store), key); store == r.store && out.data == old(out.data) + Encode(r.reply)
    {
      hide DbOk, FootOk, HeapOk, SetsOk, ContentsOk, DisposalOk, Stands, Encode, ZSet.Valid;
      Inside();
      var ent := Find(key);
      if ent != null {
        Holds(ent);
        HeapPlace(ent, entries);
        Inside();
      }
      var changed := ent != null && ent.heapIdx != NO_INDEX;
      if changed {
        SetDeadline(ent, -1, 0);
      }
      out.Out(Flag(changed));
    }

    method DoIncr(key: bytes, out: Buffer)
      requires Valid()
      modifies Repr, out
      ensures Valid() && Repr >= old(Repr) && fresh(Repr - old(Repr)) && everIn >= old(everIn)
      ensures var r := Incr(old(store), key); store == r.store && out.data == old(out.data) + Encode(r.reply)
    {
      hide Valid, Encode, Ascii, Parse, Decimal, ZSet.Valid;
      Inside();
      var ent := Find(key);
      var value := 0;
      if ent != null {
        Holds(ent);
        if ent.isZset {
          out.Out(BadType("not a string value"));
          return;
        }
        var number := Parse(ent.str);
        if number.NotANumber? || number.value == INT64_MAX {
          out.Out(BadArg("value is not an integer or increment would overflow"));
          return;
        }
        value := number.value;
      }
      if ent == null {
        ent := AddEntry(key, false, Decimal(value + 1));
      } else {
        Inside();
        SetText(ent, Decimal(value + 1));
      }
      out.Out(Int(value + 1));
    }

    /** `execute` at `now`; `later` is the clock when a command reads it again. */
    method Execute(cmd: Command, now: nat, later: nat, out: Buffer) returns (ghost reply: Value)
      requires Valid() && now <= later
      modifies Repr, out
      ensures Valid() && Repr >= old(Repr) && fresh(Repr - old(Repr)) && everIn >= old(everIn)
      ensures Executes(old(store), cmd, now, later, strtod, store, reply)
      ensures out.data == old(out.data) + Encode(reply)
    {
      hide Valid, Encode, Ascii, Reap;
      Inside();
      ReapDue(now);
      Inside();
      reply := Run(cmd, later, out);
    }

    /** The dispatch of `execute`. */
    method Run(cmd: Command, now: nat, out: Buffer) returns (ghost reply: Value)
      requires Valid()
      modifies Repr, out
      ensures Valid() && Repr >= old(Repr) && fresh(Repr - old(Repr)) && everIn >= old(everIn)
      ensures Dispatch(old(store), cmd, now, strtod, store, reply)
      ensures out.data == old(out.data) + Encode(reply)
    {
      hide Valid, Encode, Ascii, Persist, Incr, Get, Set, Expire, Ttl, Keys, Zadd, Zrem, Zscore, Zquery, ParseDouble;
      Inside();
      var n := |cmd|;
      if (n == 1 || n == 2) && cmd[0] == Ascii("ping") {
        out.Out(Str(if n == 2 then cmd[1] else Ascii("PONG")));
        reply := Str(if n == 2 then cmd[1] else Ascii("PONG"));
      } else if n == 2 && cmd[0] == Ascii("exists") {
        DoExists(cmd[1], out);
        reply := Flag(cmd[1] in store);
      } else if n == 2 && cmd[0] == Ascii("type") {
        DoType(cmd[1], out);
        reply := Str(Ascii(TypeName(store, cmd[1])));
      } else if n == 2 && cmd[0] == Ascii("persist") {
        DoPersist(cmd[1], out);
        reply := Persist(old(store), cmd[1]).reply;
      } else if n == 2 && cmd[0] == Ascii("incr") {
        DoIncr(cmd[1], out);
        reply := Incr(old(store), cmd[1]).reply;
      } else if n == 2 && cmd[0] == Ascii("get") {
        DoGet(cmd[1], out);
        reply := Get(store, cmd[1]);
      } else if n == 3 && cmd[0] == Ascii("set") {
        DoSet(cmd[1], cmd[2], out);
        reply := Set(old(store), cmd[1], cmd[2]).reply;
      } else if n == 2 && cmd[0] == Ascii("del") {
        DoDel(cmd[1], out);
        reply := StoreSpec.Del(old(store), cmd[1]).reply;
      } else {
        reply := RunMore(cmd, now, out);
      }
    }

    /** The second half of the dispatch. */
    method RunMore(cmd: Command, now: nat, out: Buffer) returns (ghost reply: Value)
      requires Valid()
      modifies Repr, out
      ensures Valid() && Repr >= old(Repr) && fresh(Repr - old(Repr)) && everIn >= old(everIn)
      ensures DispatchMore(old(store), cmd, now, strtod, store, reply)
      ensures out.data == old(out.data) + Encode(reply)
    {
      hide Valid, Encode, Ascii, Persist, Incr, Get, Set, Expire, Ttl, Keys, Zadd, Zrem, Zscore, Zquery, ParseDouble;
      Inside();
      var n := |cmd|;
      if n == 3 && cmd[0] == Ascii("pexpire") {
        DoExpire(cmd[1], cmd[2], now, out);
        reply := Expire(old(store), cmd[1], cmd[2], now).reply;
      } else if n == 2 && cmd[0] == Ascii("pttl") {
        DoTtl(cmd[1], now, out);
        reply := Ttl(store, cmd[1], now);
      } else if n == 1 && cmd[0] == Ascii("keys") {
        reply := DoKeys(out);
      } else if n == 4 && cmd[0] == Ascii("zadd") {
        DoZadd(cmd[1], cmd[2], cmd[3], out);
        reply := Zadd(old(store), cmd[1], ParseDouble(strtod, cmd[2]), cmd[3]).reply;
      } else if n == 3 && cmd[0] == Ascii("zrem") {
        DoZrem(cmd[1], cmd[2], out);
        reply := Zrem(old(store), cmd[1], cmd[2]).reply;
      } else if n == 3 && cmd[0] == Ascii("zscore") {
        DoZscore(cmd[1], cmd[2], out);
        reply := Zscore(store, cmd[1], cmd[2]);
      } else if n == 6 && cmd[0] == Ascii("zquery") {
        reply := DoZquery(cmd[1], cmd[2], cmd[3], cmd[4], cmd[5], out);
      } else {
        out.Out(Err(ERR_UNKNOWN, Ascii("unknown command.")));
        reply := Err(ERR_UNKNOWN, Ascii("unknown command."));
      }
    }
  }

  function KeysOf(visited: seq<HNode<Entry>>): (keys: seq<bytes>)
    ensures |keys| == |visited|
  { seq(|visited|, i requires 0 <= i < |visited| => visited[i].key) }

  lemma {:induction false} NoDupMultiset<T>(s: seq<T>, S: set<T>)
    requires NoDup(s) && forall x :: x in s <==> x in S
    ensures multiset(s) == multiset(S)
  {
    if s == [] {
      assert S == {};
    } else {
      var x, r := s[|s| - 1], s[..|s| - 1];
      assert s == r + [x] && x !in r;
      NoDupMultiset(r, S - {x});
      assert S == S - {x} + {x};
    }
  }

  lemma NoMembers(key: Member, offset: int, limit: int)
    requires limit > 0
    ensures QueryReply(map[], key, offset, limit, Arr([]))
  {
    var list: seq<Member> := [];
    assert IsListing(list, map[]) && SeekPoint(list, key, 0);
    assert Pairs([]) == [];
  }

  lemma Answer(list: seq<Member>, scores: map<bytes, Double>, key: Member, k: nat, offset: int, limit: int,
      reply: Value)
    requires IsListing(list, scores) && limit > 0 && k <= |list|
    requires (forall i :: 0 <= i < k ==> MemberLess(list[i], key)) && (k < |list| ==> !MemberLess(list[k], key))
    requires reply == Arr(Pairs(Slice(list, if k == |list| then |list| else k + offset, limit)))
    ensures QueryReply(scores, key, offset, limit, reply)
  {
    forall i | k <= i < |list| ensures !MemberLess(list[i], key) {
      if k < i && MemberLess(list[i], key) {
        ZLessTransitive(list[k].score, list[k].name, list[i].score, list[i].name, key.score, key.name);
      }
    }
    assert SeekPoint(list, key, k);
  }

  /** `j` members from rank `k` on. */
  function Span(list: seq<Member>, k: int, j: nat): seq<Member> {
    if 0 <= k && k + j <= |list| then list[k..k + j] else []
  }

  /** What has been written after `j` members. */
  function Emitted(list: seq<Member>, k: int, j: nat): bytes { EncodeAll(Pairs(Span(list, k, j))) }

  lemma EmittedNone(list: seq<Member>, k: int)
    ensures Emitted(list, k, 0) == []
  {
    assert Span(list, k, 0) == [];
  }

  lemma WholeSlice(list: seq<Member>, k: int, j: nat, limit: int)
    requires limit > 0 && (j > 0 ==> 2 * (j - 1) < limit && 0 <= k && k + j <= |list|)
    requires !(0 <= k + j < |list|) || 2 * j >= limit
    ensures Emitted(list, k, j) == EncodeAll(Pairs(Slice(list, k, limit)))
    ensures 2 * j == |Pairs(Slice(list, k, limit))|
  {
    if j == 0 {
      assert Span(list, k, j) == [];
    }
    assert Span(list, k, j) == Slice(list, k, limit);
    PairsLength(Span(list, k, j));
  }

  lemma OnePair(list: seq<Member>, k: int, j: nat)
    requires 0 <= k && k + j < |list|
    ensures var m := list[k + j];
            Emitted(list, k, j + 1) == Emitted(list, k, j) + Encode(Str(m.name)) + Encode(Dbl(m.score))
  {
    hide Encode;
    var s, t, m := Span(list, k, j), Span(list, k, j + 1), list[k + j];
    assert t[..|t| - 1] == s && t[|t| - 1] == m;
    var p := Pairs(s);
    assert Pairs(t) == p + [Str(m.name), Dbl(m.score)] == (p + [Str(m.name)]) + [Dbl(m.score)];
    EncodeAllSnoc(p, Str(m.name));
    EncodeAllSnoc(p + [Str(m.name)], Dbl(m.score));
  }

  lemma RemovalShrinks(E: set<Entry>, d: Deadlines, s: Store, removed: seq<Entry>, E': set<Entry>, d': Deadlines,
      s': Store)
    requires Removal(E, d, s, removed, E', d', s')
    ensures E' <= E && (removed != [] ==> E' < E)
  {
    if removed != [] { assert removed[0] in removed; }
  }

  lemma RemovedWasDue(E: set<Entry>, c: Contents, d: Deadlines, s: Store, ent: Entry, now: nat)
    requires Stands(E, c, d, s) && ent in E && ent in d && d[ent] <= now
    ensures PartReap(s, s - {ent.key}, now)
  {}

  /** When nothing is due any more, exactly what was due is gone. */
  lemma AllReaped(E: set<Entry>, c: Contents, d: Deadlines, s: Store, s0: Store, now: nat)
    requires PartReap(s0, s, now) && Stands(E, c, d, s) && NothingDue(d, now)
    ensures s == Reap(s0, now)
  {
    forall k | k in s ensures !Due(s[k], now) {
      assert HasEntry(E, k);
    }
  }

  /** A call of `process_timers` removes as many as are due, but no more than 2001. */
  lemma HowManyRemoved(E: set<Entry>, d: Deadlines, s: Store, removed: seq<Entry>, E': set<Entry>, d': Deadlines,
      s': Store, now: nat)
    requires Removal(E, d, s, removed, E', d', s') && InTurn(d, removed, d', now)
    requires |removed| <= 2001 && (|removed| < 2001 ==> NothingDue(d', now))
    ensures var due := set e | e in d && d[e] <= now; |removed| == if |due| < 2001 then |due| else 2001
  {
    var due := set e | e in d && d[e] <= now;
    var gone := set e | e in removed;
    NoDupCount(removed, gone);
    assert gone <= due;
    assert |due| == |gone| + |due - gone|;
    if |removed| < 2001 {
      assert due <= gone by {
        assert forall e :: e in due && e !in gone ==> e in d';
      }
    }
  }

  ghost predicate NothingDue(d: Deadlines, now: nat) { forall e :: e in d ==> d[e] > now }

  /** What is left when exactly `removed` went. */
  ghost predicate Removal(E: set<Entry>, d: Deadlines, s: Store, removed: seq<Entry>, E': set<Entry>, d': Deadlines,
      s': Store) {
    && NoDup(removed) && (forall e :: e in removed ==> e in E && e in d)
    && E' == E - (set e | e in removed)
    && d' == d - (set e | e in removed)
    && s' == s - (set e | e in removed :: e.key)
  }

  /** The removed were due, went in the order of their deadlines, and no later than those left. */
  ghost predicate InTurn(d: Deadlines, removed: seq<Entry>, left: Deadlines, now: nat) {
    && (forall e :: e in removed ==> e in d && d[e] <= now)
    && (forall i, j :: 0 <= i < j < |removed| ==>
          removed[i] in d && removed[j] in d && d[removed[i]] <= d[removed[j]])
    && (forall r, e :: r in removed && e in left ==> r in d && d[r] <= left[e])
  }

  lemma NothingRemoved(E: set<Entry>, d: Deadlines, s: Store, now: nat)
    ensures Removal(E, d, s, [], E, d, s) && InTurn(d, [], d, now)
  {}

  lemma OneMoreRemoved(E0: set<Entry>, d0: Deadlines, s0: Store, removed: seq<Entry>, E: set<Entry>, d: Deadlines,
      s: Store, ent: Entry, now: nat)
    requires Removal(E0, d0, s0, removed, E, d, s) && InTurn(d0, removed, d, now)
    requires ent in E && ent in d && d[ent] <= now && forall e :: e in d ==> d[ent] <= d[e]
    ensures Removal(E0, d0, s0, removed + [ent], E - {ent}, d - {ent}, s - {ent.key})
    ensures InTurn(d0, removed + [ent], d - {ent}, now)
  {
    var r := removed + [ent];
    assert forall e :: e in r <==> e in removed || e == ent;
    assert (set e | e in r) == (set e | e in removed) + {ent};
    assert (set e | e in r :: e.key) == (set e | e in removed :: e.key) + {ent.key};
    assert forall i :: 0 <= i < |removed| ==> removed[i] in removed;
  }

  lemma DeletedEntry(index: set<HNode<Entry>>, E: set<Entry>, ent: Entry, found: Option<HNode<Entry>>)
    requires DbIndexed(E, index) && ent in E
    requires found.Some? ==> found.value in index && SameEntry(ent)(found.value)
    requires found.None? ==> NoMatch(index, StrHash(ent.key), SameEntry(ent))
    ensures found == Some(DbNode(ent))
  {
    assert DbNode(ent) in index && SameEntry(ent)(DbNode(ent));
  }

  lemma NoDupSnoc<T>(a: seq<T>, b: seq<T>, x: T)
    requires NoDup(a + b) && x !in a + b
    ensures NoDup(a + [x] + b) && NoDup(a + (b + [x]))
    ensures forall y :: y in a + [x] + b <==> y in a + b || y == x
    ensures forall y :: y in a + (b + [x]) <==> y in a + b || y == x
  {
    NoDupInsert(a, b, x);
    NoDupInsert(a + b, [], x);
    assert a + (b + [x]) == a + b + [x] + [];
    assert a + b == a + b + [];
  }

  lemma NoDupInsert<T>(a: seq<T>, b: seq<T>, x: T)
    requires NoDup(a + b) && x !in a + b
    ensures NoDup(a + [x] + b)
    ensures forall y :: y in a + [x] + b <==> y in a + b || y == x
  {
    var s, t := a + b, a + [x] + b;
    assert forall i :: 0 <= i < |s| ==> s[i] in s;
    assert forall i :: 0 <= i < |t| && i != |a| ==> t[i] == s[if i < |a| then i else i - 1];
    assert forall i :: 0 <= i < |s| ==> s[i] == t[if i < |a| then i else i + 1];
    assert t[|a|] == x;
  }

  lemma CountSnoc<T>(a: seq<T>, b: seq<T>, x: T)
    ensures multiset(a + [x] + b) == multiset(a + b) + multiset{x}
    ensures multiset(a + (b + [x])) == multiset(a + b) + multiset{x}
  {
    assert a + (b + [x]) == a + b + [x];
  }
}
