/** `src/hashtable.cpp`: a chained hash table that grows by keeping two tables and moving at most
    128 nodes from the old one to the new one in every call. */
module HashMap {
  import opened Bytes

  datatype Option<+T> = None | Some(value: T)

  /** A node as the tables see it: its hash code, and the key and identity of the record it is
      embedded in. A chain's `next` links are the order of the chain. */
  datatype HNode<V> = HNode(hcode: nat, key: bytes, owner: V)

  type Chain<V> = seq<HNode<V>>

  /** `hcode & mask` for a power-of-two table. */
  function Slot(hcode: nat, cap: nat): (i: nat)
    requires cap > 0
    ensures i < cap
  { hcode % cap }

  ghost predicate NoDup<T>(s: seq<T>) { forall j, k :: 0 <= j < k < |s| ==> s[j] != s[k] }

  ghost predicate Pow2(n: nat) { n == 1 || (n > 1 && n % 2 == 0 && Pow2(n / 2)) }

  /** The table `s` holds exactly the nodes `N`, each once and in the bucket of its hash code. */
  ghost predicate Stores<V>(s: seq<Chain<V>>, N: set<HNode<V>>) {
    && |s| > 0
    && (forall i, n :: 0 <= i < |s| && n in s[i] ==> n in N && Slot(n.hcode, |s|) == i)
    && (forall n :: n in N ==> n in s[Slot(n.hcode, |s|)])
    && (forall i :: 0 <= i < |s| ==> NoDup(s[i]))
  }

  lemma StoresInsert<V>(s: seq<Chain<V>>, N: set<HNode<V>>, n: HNode<V>)
    requires Stores(s, N) && n !in N
    ensures var p := Slot(n.hcode, |s|); Stores(s[p := [n] + s[p]], N + {n})
  {
    var p := Slot(n.hcode, |s|);
    var s' := s[p := [n] + s[p]];
    forall i, m | 0 <= i < |s'| && m in s'[i] ensures m in N + {n} && Slot(m.hcode, |s'|) == i {
      assert i == p && m != n ==> m in s[p];
    }
    assert NoDup(s'[p]);
  }

  function Drop<T>(s: seq<T>, j: nat): seq<T>
    requires j < |s|
  { s[..j] + s[j + 1..] }

  lemma StoresRemove<V>(s: seq<Chain<V>>, N: set<HNode<V>>, p: nat, j: nat)
    requires Stores(s, N) && p < |s| && j < |s[p]|
    ensures s[p][j] in N && Stores(s[p := Drop(s[p], j)], N - {s[p][j]})
  {
    var n, c := s[p][j], Drop(s[p], j);
    var s' := s[p := c];
    assert n in s[p];
    assert n !in c by {
      assert forall k :: 0 <= k < |c| ==> c[k] == s[p][if k < j then k else k + 1];
    }
    forall m | m in N - {n} ensures m in s'[Slot(m.hcode, |s'|)] {
      if m in s[p] {
        var k :| 0 <= k < |s[p]| && s[p][k] == m;
        assert c[if k < j then k else k - 1] == m;
      }
    }
    assert forall m :: m in c ==> m in s[p];
  }

  /** No node of `N` has this hash code and satisfies `eq`. */
  ghost predicate NoMatch<V>(N: set<HNode<V>>, hcode: nat, eq: HNode<V> -> bool) {
    forall n :: n in N && n.hcode == hcode ==> !eq(n)
  }

  lemma NoMatchUnion<V>(N: set<HNode<V>>, M: set<HNode<V>>, hcode: nat, eq: HNode<V> -> bool)
    requires NoMatch(N, hcode, eq) && NoMatch(M, hcode, eq)
    ensures NoMatch(N + M, hcode, eq)
  {}

  ghost predicate FreshKey<V>(N: set<HNode<V>>, key: bytes) {
    forall n :: n in N ==> n.key != key
  }

  ghost predicate KeysUnique<V>(N: set<HNode<V>>) {
    forall n, m :: n in N && m in N && n.key == m.key ==> n == m
  }

  // ---------- one table ----------

  /** `tab` is the bucket array, empty for a table that is not allocated. */
  datatype HTab<V> = HTab(tab: seq<Chain<V>>, mask: nat, size: nat)

  /** `t` is allocated and holds exactly the nodes `N`. */
  ghost predicate TabHolds<V>(t: HTab<V>, N: set<HNode<V>>) {
    t.mask + 1 == |t.tab| && t.size == |N| && |t.tab| >= 4 && Pow2(|t.tab|) && Stores(t.tab, N)
  }

  /** `h_init` */
  function HInit<V>(n: nat): (t: HTab<V>)
    requires n >= 4 && Pow2(n)
    ensures TabHolds(t, {}) && |t.tab| == n
  {
    HTab(seq(n, _ => []), n - 1, 0)
  }

  /** `h_insert`: the node becomes the head of its chain. */
  method HInsert<V>(t: HTab<V>, node: HNode<V>, ghost N: set<HNode<V>>) returns (t': HTab<V>)
    requires TabHolds(t, N) && node !in N
    ensures t'.tab != [] && t'.mask == t.mask && t'.size == t.size + 1 && TabHolds(t', N + {node})
  {
    StoresInsert(t.tab, N, node);
    var pos := Slot(node.hcode, t.mask + 1);
    t' := HTab(t.tab[pos := [node] + t.tab[pos]], t.mask, t.size + 1);
  }

  /** `h_lookup`: where in its chain a node with this hash code that satisfies `eq` is. */
  method HLookup<V>(t: HTab<V>, hcode: nat, eq: HNode<V> -> bool, ghost N: set<HNode<V>>)
    returns (found: bool, pos: nat, j: nat)
    requires if t.tab == [] then N == {} else TabHolds(t, N)
    ensures found ==>
      && pos < |t.tab| && j < |t.tab[pos]|
      && t.tab[pos][j] in N && t.tab[pos][j].hcode == hcode && eq(t.tab[pos][j])
    ensures !found ==> NoMatch(N, hcode, eq)
  {
    found, pos, j := false, 0, 0;
    if t.tab == [] {
      return;
    }
    pos := Slot(hcode, t.mask + 1);
    var chain := t.tab[pos];
    while j < |chain|
      invariant j <= |chain|
      invariant forall i :: 0 <= i < j && chain[i].hcode == hcode ==> !eq(chain[i])
    {
      if chain[j].hcode == hcode && eq(chain[j]) {
        assert chain[j] in t.tab[pos];
        return true, pos, j;
      }
      j := j + 1;
    }
    assert forall n :: n in N && n.hcode == hcode ==> n in t.tab[pos];
  }

  /** `h_detach` */
  method HDetach<V>(t: HTab<V>, pos: nat, j: nat, ghost N: set<HNode<V>>) returns (t': HTab<V>, n: HNode<V>)
    requires TabHolds(t, N) && pos < |t.tab| && j < |t.tab[pos]|
    ensures n == t.tab[pos][j] && n in N
    ensures t'.tab != [] && t'.mask == t.mask && t'.size == t.size - 1 && TabHolds(t', N - {n})
    ensures forall i :: 0 <= i < |t.tab| && i != pos ==> t'.tab[i] == t.tab[i]
  {
    StoresRemove(t.tab, N, pos, j);
    n := t.tab[pos][j];
    t' := HTab(t.tab[pos := Drop(t.tab[pos], j)], t.mask, t.size - 1);
  }

  /** All nodes of a table, bucket by bucket and along each chain. */
  function Flat<V>(tab: seq<Chain<V>>): seq<HNode<V>> {
    if tab == [] then [] else Flat(tab[..|tab| - 1]) + tab[|tab| - 1]
  }

  lemma {:induction false} FlatMember<V>(tab: seq<Chain<V>>, n: HNode<V>)
    ensures n in Flat(tab) <==> exists i :: 0 <= i < |tab| && n in tab[i]
  {
    if tab != [] {
      FlatMember(tab[..|tab| - 1], n);
      assert forall i :: 0 <= i < |tab| - 1 ==> tab[..|tab| - 1][i] == tab[i];
    }
  }

  /** Nodes in their own buckets only, without repetition along a chain, do not repeat at all. */
  lemma {:induction false} FlatNoDup<V>(tab: seq<Chain<V>>, cap: nat)
    requires cap > 0 && forall i, n :: 0 <= i < |tab| && n in tab[i] ==> Slot(n.hcode, cap) == i
    requires forall i :: 0 <= i < |tab| ==> NoDup(tab[i])
    ensures NoDup(Flat(tab))
  {
    if tab != [] {
      var front, last := tab[..|tab| - 1], tab[|tab| - 1];
      FlatNoDup(front, cap);
      forall j, k | 0 <= j < |Flat(front)| && 0 <= k < |last| ensures Flat(front)[j] != last[k] {
        var n := Flat(front)[j];
        assert n in Flat(front);
        FlatMember(front, n);
        var i :| 0 <= i < |front| && n in front[i];
        assert n in tab[i] && last[k] in tab[|tab| - 1];
      }
    }
  }

  /** Walking a table meets each of its nodes exactly once. */
  lemma FlatStores<V>(tab: seq<Chain<V>>, N: set<HNode<V>>)
    requires Stores(tab, N)
    ensures NoDup(Flat(tab)) && forall n :: n in Flat(tab) <==> n in N
  {
    FlatNoDup(tab, |tab|);
    forall n ensures n in Flat(tab) <==> n in N { FlatMember(tab, n); }
  }

  /** What a visitor that stops the walk by answering false gets to see. */
  function Through<T>(s: seq<T>, f: T -> bool): seq<T> {
    if s == [] then [] else if f(s[0]) then [s[0]] + Through(s[1..], f) else [s[0]]
  }

  lemma {:induction false} ThroughAll<T>(p: seq<T>, q: seq<T>, f: T -> bool)
    requires forall i :: 0 <= i < |p| ==> f(p[i])
    ensures Through(p + q, f) == p + Through(q, f)
  {
    if p == [] {
      assert p + q == q;
    } else {
      assert (p + q)[1..] == p[1..] + q;
      ThroughAll(p[1..], q, f);
    }
  }

  lemma {:induction false} StoppedEarly<T>(p: seq<T>, q: seq<T>, f: T -> bool)
    requires exists n :: n in p && !f(n)
    ensures Through(p + q, f) == Through(p, f)
  {
    assert (p + q)[0] == p[0] && (p + q)[1..] == p[1..] + q;
    if f(p[0]) {
      assert p[1..] + q == (p + q)[1..];
      var n :| n in p && !f(n);
      assert n in p[1..];
      StoppedEarly(p[1..], q, f);
    }
  }

  lemma {:induction false} NoDupCount<T>(s: seq<T>, S: set<T>)
    requires NoDup(s) && forall x :: x in s <==> x in S
    ensures |s| == |S|
  {
    if s == [] {
      assert S == {};
    } else {
      var x, r := s[|s| - 1], s[..|s| - 1];
      assert x !in r;
      assert forall y :: y in s <==> y in r || y == x;
      NoDupCount(r, S - {x});
    }
  }

  lemma NoDupJoin<T>(a: seq<T>, A: set<T>, b: seq<T>, B: set<T>)
    requires NoDup(a) && NoDup(b) && A !! B
    requires (forall x :: x in a <==> x in A) && (forall x :: x in b <==> x in B)
    ensures NoDup(a + b) && (forall x :: x in a + b <==> x in A + B) && |a + b| == |A + B|
  {
    forall j, k | 0 <= j < |a| && 0 <= k < |b| ensures a[j] != b[k] {
      assert a[j] in a && b[k] in b;
    }
    NoDupCount(a + b, A + B);
  }

  /** `h_foreach`: walks the table until `f` answers false. */
  method HForEach<V>(t: HTab<V>, f: HNode<V> -> bool) returns (visited: seq<HNode<V>>, more: bool)
    requires t.tab == [] ==> t.mask == 0
    requires t.tab != [] ==> t.mask + 1 == |t.tab| && t.mask != 0
    ensures visited == Through(Flat(t.tab), f)
    ensures more <==> forall n :: n in Flat(t.tab) ==> f(n)
  {
    visited := [];
    var i := 0;
    while t.mask != 0 && i <= t.mask
      invariant i <= |t.tab| && visited == Flat(t.tab[..i])
      invariant forall n :: n in visited ==> f(n)
      decreases |t.tab| - i
    {
      var j := 0;
      assert t.tab[..i + 1][..i] == t.tab[..i];
      while j < |t.tab[i]|
        invariant j <= |t.tab[i]| && visited == Flat(t.tab[..i]) + t.tab[i][..j]
        invariant forall n :: n in visited ==> f(n)
      {
        var node := t.tab[i][j];
        if !f(node) {
          StopHere(t.tab, i, j, visited, f);
          return visited + [node], false;
        }
        visited := visited + [node];
        j := j + 1;
      }
      i := i + 1;
    }
    assert t.tab[..|t.tab|] == t.tab;
    ThroughAll(visited, [], f);
    assert visited + [] == visited;
    more := true;
  }

  lemma {:induction false} FlatPrefix<V>(tab: seq<Chain<V>>, i: nat, j: nat)
    requires i < |tab| && j < |tab[i]|
    ensures exists rest :: Flat(tab) == Flat(tab[..i]) + tab[i][..j] + [tab[i][j]] + rest
    decreases |tab|
  {
    var front, last := tab[..|tab| - 1], tab[|tab| - 1];
    if i == |tab| - 1 {
      assert Flat(tab) == Flat(tab[..i]) + last[..j] + [last[j]] + last[j + 1..];
    } else {
      FlatPrefix(front, i, j);
      assert front[..i] == tab[..i] && front[i] == tab[i];
      var rest :| Flat(front) == Flat(tab[..i]) + tab[i][..j] + [tab[i][j]] + rest;
      assert Flat(tab) == Flat(tab[..i]) + tab[i][..j] + [tab[i][j]] + (rest + last);
    }
  }

  lemma StopHere<V>(tab: seq<Chain<V>>, i: nat, j: nat, visited: seq<HNode<V>>, f: HNode<V> -> bool)
    requires i < |tab| && j < |tab[i]| && visited == Flat(tab[..i]) + tab[i][..j]
    requires (forall n :: n in visited ==> f(n)) && !f(tab[i][j])
    ensures Through(Flat(tab), f) == visited + [tab[i][j]]
    ensures tab[i][j] in Flat(tab)
  {
    FlatPrefix(tab, i, j);
    var rest :| Flat(tab) == Flat(tab[..i]) + tab[i][..j] + [tab[i][j]] + rest;
    assert visited + ([tab[i][j]] + rest) == Flat(tab);
    ThroughAll(visited, [tab[i][j]] + rest, f);
    assert tab[i][j] == Flat(tab)[|visited|];
  }

  // ---------- two tables ----------

  /** Every element of `N` is in exactly one of `A` and `B`. */
  ghost predicate Split<T>(N: set<T>, A: set<T>, B: set<T>) { A !! B && N == A + B }

  lemma SplitInsert<T>(N: set<T>, A: set<T>, B: set<T>, x: T)
    requires Split(N, A, B) && x !in N
    ensures Split(N + {x}, A + {x}, B) && x !in A
  {}

  lemma SplitMove<T>(N: set<T>, A: set<T>, B: set<T>, x: T)
    requires Split(N, A, B) && x in B
    ensures Split(N, A + {x}, B - {x}) && x !in A
  {}

  lemma SplitRemove<T>(N: set<T>, A: set<T>, B: set<T>, x: T)
    requires Split(N, A, B)
    ensures x in A ==> Split(N - {x}, A - {x}, B)
    ensures x in B ==> Split(N - {x}, A, B - {x})
  {}

  /** The buckets the migration has passed are empty. */
  ghost predicate EmptyBelow<V>(tab: seq<Chain<V>>, pos: nat)
    requires pos <= |tab|
  {
    forall i :: 0 <= i < pos ==> tab[i] == []
  }

  /** A link to a node: in which table, bucket and place of the chain. */
  datatype Link = InNewer(pos: nat, j: nat) | InOlder(pos: nat, j: nat) | Nowhere

  class HMap<V> {
    var newer: HTab<V>
    var older: HTab<V>
    var migratePos: nat

    /** The one set of nodes that both tables together stand for. */
    ghost var nodes: set<HNode<V>>
    ghost var newN: set<HNode<V>>
    ghost var oldN: set<HNode<V>>

    // The rehash under way: how many nodes it started with, and how many calls it has seen.
    ghost var due: nat
    ghost var calls: nat

    /** What holds at every moment, also between the steps of one call. */
    ghost predicate Tables()
      reads this
    {
      && (newer.tab != [] ==> TabHolds(newer, newN))
      && (newer.tab == [] ==> newer.mask == 0 && newer.size == 0 && newN == {} && older.tab == [])
      && (older.tab != [] ==>
            && TabHolds(older, oldN)
            && newer.mask + 1 == 2 * (older.mask + 1)
            && migratePos <= |older.tab| && EmptyBelow(older.tab, migratePos))
      && (older.tab == [] ==> older.mask == 0 && older.size == 0 && oldN == {})
      && Split(nodes, newN, oldN)
    }

    /** How full the tables are, when up to `k` nodes were added since the last migration step. The
        old table's share of the bound pays for the nodes that arrive while it is migrated. */
    ghost predicate Load(k: nat)
      reads this
    {
      && (older.tab == [] ==> newer.tab != [] ==> newer.size < 8 * (newer.mask + 1))
      && (older.tab != [] ==>
            && 128 * (newer.size + older.size) + older.size <= 1032 * (older.mask + 1) + 128 * k
            && older.size + 128 * calls <= due && 128 * calls < due)
    }

    /** What holds between calls. */
    ghost predicate Valid()
      reads this
    {
      Tables() && Load(0)
    }

    constructor ()
      ensures Valid() && nodes == {}
    {
      newer, older, migratePos := HTab([], 0, 0), HTab([], 0, 0), 0;
      nodes, newN, oldN, due, calls := {}, {}, {}, 0, 0;
    }

    /** `hm_help_rehashing` */
    method HelpRehashing()
      requires Tables()
      modifies this
      ensures Tables() && nodes == old(nodes)
      ensures due == old(due) && calls == old(calls) + 1
      ensures newer.mask == old(newer.mask) && (newer.tab == [] <==> old(newer.tab) == [])
      ensures old(older.size) <= 128 ==> older.tab == []
      ensures old(older.size) > 128 ==>
        older.tab != [] && older.mask == old(older.mask) && older.size == old(older.size) - 128
    {
      hide Stores, Pow2;
      var nwork := 0;
      while nwork < 128 && older.size > 0
        invariant Tables() && nodes == old(nodes)
        invariant due == old(due) && calls == old(calls)
        invariant newer.mask == old(newer.mask) && (newer.tab == [] <==> old(newer.tab) == [])
        invariant older.mask == old(older.mask) && (older.tab == [] <==> old(older.tab) == [])
        invariant nwork <= 128 && older.size + nwork == old(older.size)
        decreases older.size, |older.tab| - migratePos
      {
        CursorInRange();
        if older.tab[migratePos] == [] {
          migratePos := migratePos + 1;
        } else {
          MigrateOne();
          nwork := nwork + 1;
        }
      }
      if older.size == 0 && older.tab != [] {
        older := HTab([], 0, 0);
      }
      calls := calls + 1;
    }

    /** While the old table has nodes, the cursor points into it. */
    lemma CursorInRange()
      requires Tables() && older.size > 0
      ensures migratePos < |older.tab|
    {
      var n :| n in oldN;
      var p := Slot(n.hcode, |older.tab|);
      assert n in older.tab[p];
    }

    /** `h_insert(&hmap->newer, h_detach(&hmap->older, from))` */
    method MigrateOne()
      requires Tables() && migratePos < |older.tab| && older.tab[migratePos] != []
      modifies this`newer, this`older, this`newN, this`oldN
      ensures Tables() && older.size == old(older.size) - 1
      ensures newer.mask == old(newer.mask) && (newer.tab == [] <==> old(newer.tab) == [])
      ensures older.mask == old(older.mask) && older.tab != []
      ensures unchanged(`nodes) && unchanged(`migratePos) && unchanged(`due) && unchanged(`calls)
    {
      hide Stores, Pow2, Split;
      var t, n := HDetach(older, migratePos, 0, oldN);
      SplitMove(nodes, newN, oldN, n);
      older, oldN := t, oldN - {n};
      t := HInsert(newer, n, newN);
      newer, newN := t, newN + {n};
    }

    /** `hm_trigger_rehashing` */
    method TriggerRehashing()
      requires Tables() && older.tab == [] && newer.tab != []
      modifies this
      ensures Tables() && nodes == old(nodes)
      ensures older == old(newer) && oldN == nodes && newN == {} && newer.mask + 1 == 2 * (older.mask + 1)
      ensures due == older.size && calls == 0
    {
      older, oldN := newer, newN;
      assert Pow2(2 * (newer.mask + 1));
      hide Stores, Pow2;
      newer, newN := HInit((newer.mask + 1) * 2), {};
      migratePos := 0;
      due, calls := older.size, 0;
    }

    /** A migration step makes up for one added node. */
    method Settle()
      requires Tables() && Load(1)
      modifies this
      ensures Valid() && nodes == old(nodes)
      ensures due == old(due) && calls == old(calls) + 1
    {
      hide Stores, Pow2;
      HelpRehashing();
    }

    ghost predicate Leads(w: Link, n: HNode<V>)
      reads this
    {
      match w
      case InNewer(pos, j) => pos < |newer.tab| && j < |newer.tab[pos]| && newer.tab[pos][j] == n && n in newN
      case InOlder(pos, j) => pos < |older.tab| && j < |older.tab[pos]| && older.tab[pos][j] == n && n in oldN
      case Nowhere => false
    }

    /** Both lookups of `hm_lookup` and `hm_delete`: the new table first, then the old one. */
    method Find(hcode: nat, eq: HNode<V> -> bool) returns (w: Link, r: Option<HNode<V>>)
      requires Tables()
      ensures r.None? ==> w.Nowhere? && NoMatch(nodes, hcode, eq)
      ensures r.Some? ==> Leads(w, r.value) && r.value in nodes && r.value.hcode == hcode && eq(r.value)
    {
      hide Stores, Pow2, NoMatch;
      var found, pos, j := HLookup(newer, hcode, eq, newN);
      if found {
        return InNewer(pos, j), Some(newer.tab[pos][j]);
      }
      found, pos, j := HLookup(older, hcode, eq, oldN);
      if found {
        return InOlder(pos, j), Some(older.tab[pos][j]);
      }
      NoMatchUnion(newN, oldN, hcode, eq);
      return Nowhere, None;
    }

    /** `hm_lookup` */
    method Lookup(hcode: nat, eq: HNode<V> -> bool) returns (r: Option<HNode<V>>)
      requires Valid()
      modifies this
      ensures Valid() && nodes == old(nodes)
      ensures calls == old(calls) + 1 && due == old(due)
      ensures r.Some? ==> r.value in nodes && r.value.hcode == hcode && eq(r.value)
      ensures r.None? ==> NoMatch(nodes, hcode, eq)
    {
      hide Tables, NoMatch;
      Settle();
      var w;
      w, r := Find(hcode, eq);
    }

    /** `hm_insert` of a node that is not in the map; whether its key is new is the caller's affair. */
    method Insert(node: HNode<V>)
      requires Valid() && node !in nodes
      modifies this
      ensures Valid() && nodes == old(nodes) + {node}
      ensures if old(older.tab == [] && newer.tab != [] && newer.size + 1 == 8 * (newer.mask + 1))
              then due == old(newer.size) + 1 && calls == 1
              else due == old(due) && calls == old(calls) + 1
    {
      hide Tables, Added, Load;
      if newer.tab == [] {
        Allocate();
      }
      InsertNewer(node);
      if older.tab == [] {
        Grow();
      }
      Settle();
    }

    /** Right after a node was added. */
    ghost predicate Added()
      reads this
    {
      && newer.tab != []
      && (older.tab == [] ==> newer.size <= 8 * (newer.mask + 1))
      && (older.tab != [] ==> Load(1))
    }

    /** `h_init(&hmap->newer, 4)` */
    method Allocate()
      requires Valid() && newer.tab == []
      modifies this`newer
      ensures Valid() && newer.tab != [] && newer.mask == 3 && newer.size == 0
      ensures older.tab == []
      ensures unchanged(`nodes) && unchanged(`due) && unchanged(`calls)
    {
      assert Pow2(4) by { assert Pow2(2); }
      newer := HInit(4);
    }

    /** `h_insert(&hmap->newer, node)` */
    method InsertNewer(node: HNode<V>)
      requires Valid() && newer.tab != [] && node !in nodes
      modifies this`newer, this`newN, this`nodes
      ensures Tables() && Added() && nodes == old(nodes) + {node}
      ensures newer.size == old(newer.size) + 1 && newer.mask == old(newer.mask)
      ensures older.tab != [] ==> Load(1)
      ensures unchanged(`older) && unchanged(`due) && unchanged(`calls)
    {
      hide TabHolds, EmptyBelow, Split;
      SplitInsert(nodes, newN, oldN, node);
      var t := HInsert(newer, node, newN);
      newer, newN, nodes := t, newN + {node}, nodes + {node};
    }

    /** A full table starts a rehash. */
    method Grow()
      requires Tables() && Added() && older.tab == []
      modifies this
      ensures Tables() && Load(1) && nodes == old(nodes)
      ensures if old(newer.size == 8 * (newer.mask + 1))
              then due == old(newer.size) && calls == 0
              else due == old(due) && calls == old(calls)
    {
      hide Stores, Pow2;
      var threshold := (newer.mask + 1) * 8;
      if newer.size >= threshold {
        TriggerRehashing();
      }
    }

    /** `hm_delete` */
    method Delete(hcode: nat, eq: HNode<V> -> bool) returns (r: Option<HNode<V>>)
      requires Valid()
      modifies this
      ensures Valid()
      ensures calls == old(calls) + 1 && due == old(due)
      ensures r.Some? ==>
        && r.value in old(nodes) && r.value.hcode == hcode && eq(r.value)
        && nodes == old(nodes) - {r.value}
      ensures r.None? ==> nodes == old(nodes) && NoMatch(nodes, hcode, eq)
    {
      hide Tables, NoMatch, Leads;
      Settle();
      var w;
      w, r := Find(hcode, eq);
      if r.Some? {
        Detach(w, r.value);
      }
    }

    /** `h_detach` on either table. */
    method Detach(w: Link, n: HNode<V>)
      requires Valid() && Leads(w, n)
      modifies this
      ensures Valid() && nodes == old(nodes) - {n}
      ensures due == old(due) && calls == old(calls)
    {
      hide Tables, Load;
      match w {
        case InNewer(pos, j) => DetachNewer(pos, j);
        case InOlder(pos, j) => DetachOlder(pos, j);
      }
    }

    method DetachNewer(pos: nat, j: nat)
      requires Valid() && pos < |newer.tab| && j < |newer.tab[pos]|
      modifies this`newer, this`newN, this`nodes
      ensures Valid() && nodes == old(nodes) - {old(newer.tab[pos][j])}
      ensures unchanged(`due) && unchanged(`calls)
    {
      hide TabHolds, EmptyBelow, Split;
      var t, n := HDetach(newer, pos, j, newN);
      SplitRemove(nodes, newN, oldN, n);
      newer, newN, nodes := t, newN - {n}, nodes - {n};
    }

    method DetachOlder(pos: nat, j: nat)
      requires Valid() && pos < |older.tab| && j < |older.tab[pos]|
      modifies this`older, this`oldN, this`nodes
      ensures Valid() && nodes == old(nodes) - {old(older.tab[pos][j])}
      ensures unchanged(`due) && unchanged(`calls)
    {
      hide Stores, Pow2;
      var t, n := HDetach(older, pos, j, oldN);
      SplitRemove(nodes, newN, oldN, n);
      older, oldN, nodes := t, oldN - {n}, nodes - {n};
    }

    /** `hm_size` */
    method Size() returns (k: nat)
      requires Valid()
      ensures k == |nodes|
    {
      k := newer.size + older.size;
    }

    /** `hm_foreach`: the new table, then the old one unless the walk was stopped. */
    method ForEach(f: HNode<V> -> bool) returns (visited: seq<HNode<V>>)
      requires Valid()
      ensures visited == Through(Flat(newer.tab) + Flat(older.tab), f)
    {
      hide Stores, Pow2;
      var v, more := HForEach(newer, f);
      visited := v;
      if more {
        assert forall i :: 0 <= i < |Flat(newer.tab)| ==> Flat(newer.tab)[i] in Flat(newer.tab);
        ThroughAll(Flat(newer.tab), [], f);
        ThroughAll(Flat(newer.tab), Flat(older.tab), f);
        assert Flat(newer.tab) + [] == Flat(newer.tab);
        v, more := HForEach(older, f);
        visited := visited + v;
      } else {
        StoppedEarly(Flat(newer.tab), Flat(older.tab), f);
      }
    }

    /** The walk of `hm_foreach` meets every node exactly once, also in the middle of a rehash. */
    lemma EachOnce()
      requires Valid()
      ensures var walk := Flat(newer.tab) + Flat(older.tab);
              NoDup(walk) && (forall n :: n in walk <==> n in nodes) && |walk| == |nodes|
    {
      if newer.tab != [] { FlatStores(newer.tab, newN); }
      if older.tab != [] { FlatStores(older.tab, oldN); }
      assert NoDup(Flat(newer.tab)) && NoDup(Flat(older.tab));
      hide Stores, Pow2, NoDup, EmptyBelow;
      NoDupJoin(Flat(newer.tab), newN, Flat(older.tab), oldN);
    }

    /** No table is ever past its load factor between calls, so a second rehash is never owed while
        one is running; and a rehash of `due` nodes has seen fewer than ceil(due / 128) calls for
        as long as its old table is there. */
    lemma RehashInTime()
      requires Valid()
      ensures newer.tab != [] ==> newer.size < 8 * (newer.mask + 1)
      ensures older.tab != [] ==> newer.mask + 1 == 2 * (older.mask + 1)
      ensures older.tab != [] ==> calls < (due + 127) / 128
      ensures older.tab != [] && older.size > 0 ==> migratePos < |older.tab|
    {
      if older.tab != [] && older.size > 0 { CursorInRange(); }
    }
  }
}
