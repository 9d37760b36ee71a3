/** `src/zset.cpp`: a set of named members with scores, indexed by name in a hash map and by
    (score, name) in an AVL tree over the same nodes. */
module ZSets {
  import opened AvlTree
  import opened AvlNodes
  import opened Bytes
  import opened Doubles
  import opened HashMap

  /** `zless` */
  predicate ZLess(s1: Double, n1: bytes, s2: Double, n2: bytes) {
    if Key(s1) != Key(s2) then Key(s1) < Key(s2) else NameLess(n1, n2)
  }

  lemma ZLessTransitive(s1: Double, n1: bytes, s2: Double, n2: bytes, s3: Double, n3: bytes)
    requires ZLess(s1, n1, s2, n2) && ZLess(s2, n2, s3, n3)
    ensures ZLess(s1, n1, s3, n3)
  {
    if Key(s1) == Key(s2) == Key(s3) { NameLessTransitive(n1, n2, n3); }
  }

  /** Members with different names are never tied, whatever their scores. */
  lemma ZLessTotal(s1: Double, n1: bytes, s2: Double, n2: bytes)
    ensures n1 != n2 ==> (ZLess(s1, n1, s2, n2) <==> !ZLess(s2, n2, s1, n1))
    ensures n1 == n2 && Key(s1) == Key(s2) ==> !ZLess(s1, n1, s2, n2)
  {
    NameLessTotal(n1, n2);
  }

  /** The score of every node, as one value: order is a matter of these and of the names. */
  type Scores = map<ZNode, Double>

  ghost predicate Scored(S: set<ZNode>, sc: Scores)
    reads S
  { forall x :: x in S ==> x in sc && sc[x] == x.score }

  predicate Less(sc: Scores, a: ZNode, b: ZNode) {
    a in sc && b in sc && ZLess(sc[a], a.name, sc[b], b.name)
  }

  /** Strictly increasing by (score, name). */
  ghost predicate Sorted(sc: Scores, s: seq<ZNode>) {
    forall i, j :: 0 <= i < j < |s| ==> Less(sc, s[i], s[j])
  }

  ghost predicate AllLess(sc: Scores, s: seq<ZNode>, n: ZNode) { forall x :: x in s ==> Less(sc, x, n) }

  ghost predicate AllMore(sc: Scores, n: ZNode, s: seq<ZNode>) { forall x :: x in s ==> Less(sc, n, x) }

  lemma SortedSplit(sc: Scores, p: seq<ZNode>, n: ZNode, q: seq<ZNode>)
    requires Sorted(sc, p + [n] + q)
    ensures Sorted(sc, p + q) && AllLess(sc, p, n) && AllMore(sc, n, q)
  {
    var s, t := p + [n] + q, p + q;
    assert forall i :: 0 <= i < |p| ==> s[i] == p[i];
    assert s[|p|] == n;
    assert forall i :: 0 <= i < |q| ==> s[|p| + 1 + i] == q[i];
    assert forall i :: 0 <= i < |t| ==> t[i] == s[if i < |p| then i else i + 1];
  }

  lemma SortedJoin(sc: Scores, p: seq<ZNode>, n: ZNode, q: seq<ZNode>)
    requires Sorted(sc, p + q) && AllLess(sc, p, n) && AllMore(sc, n, q)
    ensures Sorted(sc, p + [n] + q)
  {
    var s, t := p + [n] + q, p + q;
    forall i, j | 0 <= i < j < |s| ensures Less(sc, s[i], s[j]) {
      assert i != |p| ==> s[i] == t[if i < |p| then i else i - 1];
      assert j != |p| ==> s[j] == t[if j < |p| then j else j - 1];
      assert i < |p| ==> s[i] in p;
      assert j > |p| ==> s[j] in q;
    }
  }

  lemma LessTransitive(sc: Scores, a: ZNode, b: ZNode, c: ZNode)
    requires Less(sc, a, b) && Less(sc, b, c)
    ensures Less(sc, a, c)
  {
    ZLessTransitive(sc[a], a.name, sc[b], b.name, sc[c], c.name);
  }

  // ---------- insertion into the tree ----------

  /** Going left from `x`, everything from `x` on comes after `node`. */
  lemma GoLeft(sc: Scores, c: ZPath, l: ZTree, x: ZNode, r: ZTree, node: ZNode)
    requires Sorted(sc, c.Plug(Br(l, x, r)).InOrder()) && Less(sc, node, x) && AllMore(sc, node, c.After())
    ensures AllMore(sc, node, InL(c, x, r).After())
  {
    PlugAround(c, l, x, r);
    SortedSplit(sc, Preceding(c, l), x, Following(c, r));
    forall y | y in InL(c, x, r).After() ensures Less(sc, node, y) {
      if y in r.InOrder() {
        assert y in Following(c, r);
        LessTransitive(sc, node, x, y);
      }
    }
  }

  lemma GoRight(sc: Scores, c: ZPath, l: ZTree, x: ZNode, r: ZTree, node: ZNode)
    requires Sorted(sc, c.Plug(Br(l, x, r)).InOrder()) && Less(sc, x, node) && AllLess(sc, c.Before(), node)
    ensures AllLess(sc, InR(c, l, x).Before(), node)
  {
    PlugAround(c, l, x, r);
    SortedSplit(sc, Preceding(c, l), x, Following(c, r));
    forall y | y in InR(c, l, x).Before() ensures Less(sc, y, node) {
      if y in l.InOrder() {
        assert y in Preceding(c, l);
        LessTransitive(sc, y, x, node);
      }
    }
  }

  /** The descent of `tree_insert`: the empty place between the members before and after `node`. */
  method Descend(root: ZNode?, node: ZNode, ghost tree: ZTree, ghost sc: Scores)
    returns (parent: ZNode?, left: bool, ghost c: ZPath, ghost steps: nat)
    requires Linked(tree, null) && root == Root(tree) && Sorted(sc, tree.InOrder())
    requires Scored(tree.Nodes() + {node}, sc)
    requires forall x :: x in tree.Nodes() ==> x.name != node.name
    ensures tree == c.Plug(Leaf) && parent == Holder(c) && (left <==> c.InL?)
    ensures AllLess(sc, c.Before(), node) && AllMore(sc, node, c.After())
    ensures parent == null <==> root == null
    ensures parent != null ==>
      if left then parent.left == null && ZLess(node.score, node.name, parent.score, parent.name)
      else parent.right == null && ZLess(parent.score, parent.name, node.score, node.name)
    ensures steps <= tree.Height()
    ensures Linked(tree, null)
  {
    hide Sorted, AllLess, AllMore;
    var cur := root;
    ghost var t := tree;
    parent, left, c, steps := null, false, Top, 0;
    NoneAround(sc, node);
    while cur != null
      invariant cur == Root(t) && tree == c.Plug(t) && parent == Holder(c) && (left <==> c.InL?)
      invariant Linked(t, parent) && Linked(tree, null) && Scored(tree.Nodes() + {node}, sc)
      invariant AllLess(sc, c.Before(), node) && AllMore(sc, node, c.After())
      invariant parent == null ==> cur == root
      invariant parent != null ==> root != null && if left then cur == parent.left &&
          ZLess(node.score, node.name, parent.score, parent.name)
                                   else cur == parent.right && ZLess(parent.score, parent.name, node.score, node.name)
      invariant steps + t.Height() <= tree.Height()
      decreases t
    {
      PlugNodes(c, t);
      assert t.n in t.Nodes() && t == Br(t.l, t.n, t.r);
      ZLessTotal(node.score, node.name, cur.score, cur.name);
      parent := cur;
      left := ZLess(node.score, node.name, parent.score, parent.name);
      if left {
        GoLeft(sc, c, t.l, t.n, t.r, node);
        cur, c, t := parent.left, InL(c, t.n, t.r), t.l;
      } else {
        GoRight(sc, c, t.l, t.n, t.r, node);
        cur, c, t := parent.right, InR(c, t.l, t.n), t.r;
      }
      steps := steps + 1;
    }
  }

  lemma NoneAround(sc: Scores, node: ZNode)
    ensures AllLess(sc, [], node) && AllMore(sc, node, [])
  {}

  lemma GrownSorted(sc: Scores, c: ZPath, node: ZNode)
    requires Sorted(sc, c.Plug(Leaf).InOrder()) && AllLess(sc, c.Before(), node) && AllMore(sc, node, c.After())
    ensures Sorted(sc, c.Before() + [node] + c.After())
  {
    PlugInOrder(c, Leaf);
    assert c.Plug(Leaf).InOrder() == c.Before() + c.After();
    SortedJoin(sc, c.Before(), node, c.After());
  }

  /** What the tree will be once `node` is in the place the descent found. */
  lemma GrownShape(c: ZPath, node: ZNode)
    requires c.Plug(Leaf).Distinct() && c.Plug(Leaf).Balanced() && node !in c.Plug(Leaf).Nodes()
    ensures var tree' := Climb(c, Br(Leaf, node, Leaf));
            && tree'.Distinct() && tree'.Balanced() && tree'.Nodes() == c.Nodes() + {node}
            && tree'.InOrder() == c.Before() + [node] + c.After()
            && c.Nodes() == c.Plug(Leaf).Nodes() && c.Distinct()
  {
    var t: ZTree := Br(Leaf, node, Leaf);
    SingleNode(node);
    PlugNodes(c, Leaf);
    PlugBalanced(c, Leaf);
    hide Climb;
    ClimbNodes(c, t);
    ClimbBalanced(c, t, 0);
    ClimbInOrder(c, t);
  }

  /** `tree_insert`: attaches the fresh `node` where the descent ended and repairs the tree. */
  method TreeInsert(root: ZNode?, node: ZNode, ghost tree: ZTree, ghost sc: Scores, ghost s: set<ZNode>)
    returns (root': ZNode, ghost tree': ZTree)
    requires Avl(tree) && root == Root(tree) && Sorted(sc, tree.InOrder()) && Scored(s, sc)
    requires forall x :: x in tree.Nodes() ==> x.name != node.name
    requires node !in tree.Nodes() && node.left == null && node.right == null
    requires s == tree.Nodes() + {node}
    modifies s`parent, s`left, s`right, s`height, s`cnt
    ensures Avl(tree') && root' == Root(tree') && Sorted(sc, tree'.InOrder())
    ensures tree'.Nodes() == s
  {
    var parent, left;
    ghost var c, steps;
    parent, left, c, steps := Descend(root, node, tree, sc);
    GrownSorted(sc, c, node);
    GrownShape(c, node);
    hide *;
    root' := Place(parent, left, node, c, s);
    tree' := Climb(c, Br(Leaf, node, Leaf));
    MakeAvl(tree');
  }

  /** Attaching `node` in the place the descent found, and the repair. */
  method Place(parent: ZNode?, left: bool, node: ZNode, ghost c: ZPath, ghost s: set<ZNode>) returns (root: ZNode)
    requires parent == Holder(c) && (left <==> c.InL?) && Linked(c.Plug(Leaf), null) && c.Distinct()
    requires s == c.Nodes() + {node} && node !in c.Nodes() && node.left == null && node.right == null
    modifies s`parent, s`left, s`right, s`height, s`cnt
    ensures Linked(Climb(c, Br(Leaf, node, Leaf)), null) && root == Root(Climb(c, Br(Leaf, node, Leaf)))
  {
    OpenAt(c, Leaf);
    ExactIsLinked(c, null, 0, 0);
    Attach(parent, left, node, c, s);
    assert Fix1<ZNode>(Br(Leaf, node, Leaf)) == Br(Leaf, node, Leaf);
    hide *;
    root := Fix(node, c, Br(Leaf, node, Leaf), s);
  }

  lemma MakeAvl(t: ZTree)
    requires Linked(t, null) && t.Distinct() && t.Balanced()
    ensures Avl(t)
  {}

  /** `*from = &node->tree; node->tree.parent = parent` */
  method Attach(parent: ZNode?, left: bool, node: ZNode, ghost c: ZPath, ghost s: set<ZNode>)
    requires parent == Holder(c) && (left <==> c.InL?) && LinkedPath(c, null) && c.Distinct()
    requires s == c.Nodes() + {node} && node !in c.Nodes() && node.left == null && node.right == null
    modifies s`parent, s`left, s`right
    ensures InPlace(c, Br(Leaf, node, Leaf), s)
  {
    if parent != null {
      assert parent in s;
      if left { parent.left := node; } else { parent.right := node; }
    }
    node.parent := parent;
  }

  // ---------- seeking ----------

  /** `zset_seekge`: the first member that is not less than (score, name); `k` members are less. */
  method SeekGe(root: ZNode?, score: Double, name: bytes, ghost tree: ZTree, ghost sc: Scores)
    returns (found: ZNode?, ghost k: nat, ghost steps: nat)
    requires Linked(tree, null) && root == Root(tree) && Sorted(sc, tree.InOrder()) && Scored(tree.Nodes(), sc)
    ensures k <= |tree.InOrder()|
    ensures forall i :: 0 <= i < k ==> LessKey(sc, tree.InOrder()[i], score, name)
    ensures found == if k < |tree.InOrder()| then tree.InOrder()[k] else null
    ensures found != null ==> found in sc && !LessKey(sc, found, score, name)
    ensures steps <= tree.Height()
  {
    hide Sorted;
    found := null;
    var node := root;
    ghost var c, t := Top, tree;
    steps := 0;
    while node != null
      invariant node == Root(t) && tree == c.Plug(t)
      invariant Linked(t, Holder(c)) && Scored(tree.Nodes(), sc)
      invariant forall x :: x in c.Before() ==> LessKey(sc, x, score, name)
      invariant found == if c.After() == [] then null else c.After()[0]
      invariant found != null ==> found in sc && !LessKey(sc, found, score, name)
      invariant steps + t.Height() <= tree.Height()
      decreases t
    {
      PlugNodes(c, t);
      assert t.n in t.Nodes() && t == Br(t.l, t.n, t.r);
      if ZLess(node.score, node.name, score, name) {
        SkipLeft(sc, c, t.l, t.n, t.r, score, name);
        node, c, t := node.right, InR(c, t.l, t.n), t.r;
      } else {
        found := node;
        node, c, t := node.left, InL(c, t.n, t.r), t.l;
      }
      steps := steps + 1;
    }
    k := |c.Before()|;
    PlugInOrder(c, Leaf);
    assert tree.InOrder() == c.Before() + c.After();
  }

  predicate LessKey(sc: Scores, x: ZNode, score: Double, name: bytes) {
    x in sc && ZLess(sc[x], x.name, score, name)
  }

  lemma SkipLeft(sc: Scores, c: ZPath, l: ZTree, x: ZNode, r: ZTree, score: Double, name: bytes)
    requires Sorted(sc, c.Plug(Br(l, x, r)).InOrder()) && LessKey(sc, x, score, name)
    requires forall y :: y in c.Before() ==> LessKey(sc, y, score, name)
    ensures forall y :: y in InR(c, l, x).Before() ==> LessKey(sc, y, score, name)
  {
    PlugAround(c, l, x, r);
    SortedSplit(sc, Preceding(c, l), x, Following(c, r));
    forall y | y in InR(c, l, x).Before() ensures LessKey(sc, y, score, name) {
      if y in l.InOrder() {
        assert y in Preceding(c, l);
        ZLessTransitive(sc[y], y.name, sc[x], x.name, score, name);
      }
    }
  }

  // ---------- the set ----------

  /** A member of a sorted set, as commands speak of it. */
  datatype Member = Member(name: bytes, score: Double)

  predicate MemberLess(a: Member, b: Member) { ZLess(a.score, a.name, b.score, b.name) }

  ghost predicate Increasing(s: seq<Member>) { forall i, j :: 0 <= i < j < |s| ==> MemberLess(s[i], s[j]) }

  /** `s` lists the members of `m` in order. */
  ghost predicate IsListing(s: seq<Member>, m: map<bytes, Double>) {
    Increasing(s) && forall x :: x in s <==> x.name in m && m[x.name] == x.score
  }

  lemma HasElement<T>(s: seq<T>)
    requires s != []
    ensures exists x :: x in s
  {
    assert s[0] in s;
  }

  /** There is only one such list. */
  lemma {:induction false} ListingUnique(a: seq<Member>, b: seq<Member>, m: map<bytes, Double>)
    requires IsListing(a, m) && IsListing(b, m)
    ensures a == b
  {
    if a == [] {
      assert forall x :: x in b <==> x in a;
      if b != [] { HasElement(b); }
    } else {
      assert a[0] in a && a[0] in b;
      assert b[0] in b && b[0] in a;
      assert a[0] == b[0] by {
        ZLessTotal(a[0].score, a[0].name, b[0].score, b[0].name);
        assert a[0] == b[0] || MemberLess(a[0], b[0]);
        assert a[0] == b[0] || MemberLess(b[0], a[0]);
      }
      ListingTail(a, m);
      ListingTail(b, m);
      ListingUnique(a[1..], b[1..], m - {a[0].name});
      assert a == [a[0]] + a[1..] && b == [b[0]] + b[1..];
    }
  }

  lemma ListingTail(a: seq<Member>, m: map<bytes, Double>)
    requires IsListing(a, m) && a != []
    ensures IsListing(a[1..], m - {a[0].name})
  {
    var t, m' := a[1..], m - {a[0].name};
    forall x ensures x in t <==> x.name in m' && m'[x.name] == x.score {
      assert x in a <==> x == a[0] || x in t;
      if x in t {
        var i :| 0 <= i < |t| && t[i] == x;
        assert MemberLess(a[0], a[i + 1]);
        ZLessTotal(x.score, x.name, x.score, x.name);
        assert a[0] in a;
      }
    }
  }

  /** A member as the hash index sees it. */
  function IndexNode(z: ZNode): HNode<ZNode> { HNode(StrHash(z.name), z.name, z) }

  ghost predicate Indexed(nodes: set<ZNode>, index: set<HNode<ZNode>>) {
    && (forall z :: z in nodes ==> IndexNode(z) in index)
    && (forall n :: n in index ==> n.owner in nodes && n == IndexNode(n.owner))
    && KeysUnique(index)
  }

  /** `scores` is the map from names to scores that the nodes stand for. */
  ghost predicate Named(nodes: set<ZNode>, sc: Scores, scores: map<bytes, Double>) {
    && (forall z :: z in nodes ==> z in sc && z.name in scores && scores[z.name] == sc[z])
    && (forall k :: k in scores ==> HasNode(nodes, k))
  }

  ghost predicate HasNode(nodes: set<ZNode>, name: bytes) { exists z :: z in nodes && z.name == name }

  /** `hcmp` */
  function NamedEq(name: bytes): HNode<ZNode> -> bool { (n: HNode<ZNode>) => n.key == name }

  class ZSet {
    var root: ZNode?
    const hmap: HMap<ZNode>
    ghost var tree: ZTree
    ghost var nodes: set<ZNode>
    ghost var sc: Scores

    /** What the set stands for. */
    ghost var scores: map<bytes, Double>

    ghost function Repr(): set<object>
      reads this
    { {this, hmap} + nodes }

    ghost predicate TreeOk()
      reads this`root, this`tree, this`nodes, this`sc, nodes
    {
      && nodes == tree.Nodes() && Avl(tree) && root == Root(tree)
      && Sorted(sc, tree.InOrder()) && Scored(nodes, sc)
    }

    ghost predicate IndexOk()
      reads this`nodes, this`sc, this`scores, hmap
    {
      hmap.Valid() && Indexed(nodes, hmap.nodes) && Named(nodes, sc, scores)
    }

    /** Both indexes hold exactly the same nodes, in their order and under their names. */
    ghost predicate Valid()
      reads this, hmap, nodes
    {
      TreeOk() && IndexOk()
    }

    constructor ()
      ensures Valid() && fresh(Repr()) && scores == map[]
    {
      root := null;
      hmap := new HMap();
      tree, nodes, sc, scores := Leaf, {}, map[], map[];
    }

    /** The tree is empty exactly when the index is, which the early return of `zset_lookup` relies on. */
    lemma EmptyTogether()
      requires Valid()
      ensures root == null <==> hmap.nodes == {}
      ensures root == null <==> scores == map[]
      ensures |hmap.nodes| == |tree.InOrder()|
    {
      if root != null {
        assert tree.n in nodes;
        assert IndexNode(tree.n) in hmap.nodes && tree.n.name in scores;
      } else {
        assert forall n :: n in hmap.nodes ==> n.owner in nodes;
      }
      InOrderNodes(tree);
      CountIndex(nodes, hmap.nodes);
      NoDupInOrder(tree);
      NoDupCount(tree.InOrder(), nodes);
    }

    /** `zset_lookup` */
    method Lookup(name: bytes) returns (r: ZNode?)
      requires Valid()
      modifies hmap
      ensures Valid()
      ensures unchanged(this)
      ensures r == null <==> name !in scores
      ensures r != null ==> r in nodes && r.name == name && r.score == scores[name]
    {
      hide TreeOk, HMap.Tables, HMap.Load, HMap.Valid, Indexed, Named, NoMatch, StrHash;
      EmptyTogether();
      if root == null {
        return null;
      }
      var found := hmap.Lookup(StrHash(name), NamedEq(name));
      FoundByName(name, found);
      r := if found.Some? then found.value.owner else null;
    }

    /** What an answer of the hash index says about the names in the set. */
    lemma FoundByName(name: bytes, found: Option<HNode<ZNode>>)
      requires Valid()
      requires found.Some? ==> found.value in hmap.nodes && NamedEq(name)(found.value)
      requires found.None? ==> NoMatch(hmap.nodes, StrHash(name), NamedEq(name))
      ensures found.None? ==> name !in scores
      ensures found.Some? ==>
        var z := found.value.owner; z in nodes && z.name == name && name in scores && scores[name] == z.score
    {
      forall z | z in nodes ensures found.None? ==> z.name != name {
        assert IndexNode(z) in hmap.nodes;
      }
    }

    /** `avl_del` on the tree of the set. */
    method TreeRemove(node: ZNode)
      requires TreeOk() && node in nodes
      modifies this`root, this`tree, this`nodes
      modifies nodes`parent, nodes`left, nodes`right, nodes`height, nodes`cnt
      ensures TreeOk() && nodes == old(nodes) - {node} && node.score == old(node.score)
      ensures unchanged(`sc) && unchanged(`scores)
    {
      hide Avl, Root, Sorted, Tree.Nodes, Tree.InOrder, Without;
      SortedWithout(sc, tree.InOrder(), node);
      root, tree := Del(node, tree, nodes);
      nodes := nodes - {node};
    }

    /** `tree_insert` into the tree of the set. */
    method TreeAdd(node: ZNode, ghost all: set<ZNode>)
      requires TreeOk() && node !in nodes && node.left == null && node.right == null && all == nodes + {node}
      requires forall x :: x in nodes ==> x.name != node.name
      modifies this`root, this`tree, this`nodes, this`sc
      modifies all`parent, all`left, all`right, all`height, all`cnt
      ensures TreeOk() && nodes == old(nodes) + {node} && sc == old(sc)[node := node.score]
      ensures node.score == old(node.score) && unchanged(`scores)
    {
      hide Avl, Root, Sorted, Tree.Nodes, Tree.InOrder;
      InOrderNodes(tree);
      SortedExtend(sc, tree.InOrder(), node, node.score);
      sc := sc[node := node.score];
      root, tree := TreeInsert(root, node, tree, sc, all);
      nodes := all;
    }

    /** Names identify members. */
    lemma UniqueName(z: ZNode)
      requires Valid() && z in nodes
      ensures forall x :: x in nodes && x.name == z.name ==> x == z
    {
      hide TreeOk, HMap.Valid, Named;
      forall x | x in nodes && x.name == z.name ensures x == z {
        assert IndexNode(x) in hmap.nodes && IndexNode(z) in hmap.nodes;
      }
    }

    /** `zset_update` */
    method Update(node: ZNode, score: Double)
      requires Valid() && node in nodes
      modifies this, nodes
      ensures Valid() && nodes == old(nodes)
      ensures scores == Put(old(scores), node.name, score)
      ensures Rescored(old(scores), scores, node.name, score)
    {
      hide TreeOk, HMap.Tables, HMap.Load, HMap.Valid, Indexed, Named, StrHash;
      UniqueName(node);
      NamedHas(node);
      if Key(node.score) == Key(score) {
        return;
      }
      TreeRemove(node);
      node.Init();
      node.score := score;
      TreeAdd(node, nodes + {node});
      assert nodes == old(nodes);
      NamedRescore(nodes, old(sc), scores, node, score);
      scores := scores[node.name := score];
    }

    lemma NamedHas(z: ZNode)
      requires Valid() && z in nodes
      ensures z.name in scores && scores[z.name] == z.score
    {
    }

    /** `zset_insert` */
    method Insert(name: bytes, score: Double) returns (added: bool)
      requires Valid()
      modifies Repr()
      ensures Valid() && fresh(Repr() - old(Repr()))
      ensures added <==> name !in old(scores)
      ensures scores == Put(old(scores), name, score)
      ensures Rescored(old(scores), scores, name, score)
    {
      hide TreeOk, HMap.Tables, HMap.Load, HMap.Valid, Indexed, Named, StrHash;
      var node := Lookup(name);
      if node != null {
        Update(node, score);
        return false;
      }
      AddNew(name, score);
      return true;
    }

    /** The branch of `zset_insert` for a new name. */
    method AddNew(name: bytes, score: Double)
      requires Valid() && name !in scores
      modifies Repr()
      ensures Valid() && fresh(Repr() - old(Repr()))
      ensures scores == old(scores)[name := score]
    {
      hide TreeOk, HMap.Tables, HMap.Load, HMap.Valid, Indexed, Named, StrHash, FreshKey;
      NewName(name);
      var node := new ZNode(name, score);
      hmap.Insert(IndexNode(node));
      IndexedAdd(nodes, old(hmap.nodes), node);
      NamedAdd(nodes, sc, scores, node, score);
      TreeAdd(node, nodes + {node});
      scores := scores[name := score];
    }

    lemma NewName(name: bytes)
      requires Valid() && name !in scores
      ensures FreshKey(hmap.nodes, name) && forall x :: x in nodes ==> x.name != name
    {
    }

    /** The members in the order of the tree. */
    ghost function Listing(): seq<Member>
      requires Valid()
      reads this, hmap, nodes
    {
      InOrderNodes(tree);
      Members(sc, tree.InOrder())
    }

    /** The tree lists the set in order. */
    lemma ListingSorted()
      requires Valid()
      ensures IsListing(Listing(), scores)
    {
      hide Avl, Root, Sorted, Tree.Nodes, Tree.InOrder, HMap.Valid, Indexed, Named, IsListing;
      InOrderNodes(tree);
      MembersListing(tree.InOrder(), nodes, sc, scores);
    }

    /** `zset_seekge` */
    method Seek(score: Double, name: bytes) returns (r: ZNode?, ghost k: nat)
      requires Valid()
      ensures k <= |Listing()| && forall i :: 0 <= i < k ==> MemberLess(Listing()[i], Member(name, score))
      ensures k < |Listing()| ==> !MemberLess(Listing()[k], Member(name, score))
      ensures r == NodeAt(k)
      ensures r == null <==> forall i :: 0 <= i < |Listing()| ==> MemberLess(Listing()[i], Member(name, score))
      ensures r != null ==> !MemberLess(Member(r.name, r.score), Member(name, score))
    {
      hide Linked, Tree.Balanced, Tree.Distinct, Sorted, HMap.Valid, Indexed, Named;
      InOrderNodes(tree);
      ghost var steps;
      r, k, steps := SeekGe(root, score, name, tree, sc);
    }

    /** The node of rank `k`, if there is one. */
    ghost function NodeAt(k: int): ZNode?
      reads this
    { if 0 <= k < |tree.InOrder()| then tree.InOrder()[k] else null }

    lemma AtRank(k: int)
      requires Valid()
      ensures |Listing()| == |tree.InOrder()|
      ensures 0 <= k < |Listing()| ==>
        var z := NodeAt(k); z in nodes && Listing()[k] == Member(z.name, z.score)
    {
      hide Linked, Tree.Balanced, Tree.Distinct, Sorted, HMap.Valid, Indexed, Named;
      InOrderNodes(tree);
      if 0 <= k < |Listing()| { assert tree.InOrder()[k] in tree.InOrder(); }
    }

    /** `znode_offset` from the node of rank `k`. */
    method OffsetFrom(z: ZNode?, offset: int, ghost k: nat) returns (r: ZNode?)
      requires Valid() && z == NodeAt(k)
      ensures z == null ==> r == null
      ensures z != null ==> r == NodeAt(k + offset)
    {
      hide Linked, Tree.Balanced, Tree.Distinct, Sorted, HMap.Valid, Indexed, Named;
      InOrderNodes(tree);
      if z == null {
        return null;
      }
      ghost var steps;
      r, steps := Offset(z, offset, tree, k);
    }

    /** `zset_delete` */
    method Delete(node: ZNode)
      requires Valid() && node in nodes
      modifies Repr()
      ensures Valid() && fresh(Repr() - old(Repr()))
      ensures scores == old(scores) - {node.name}
    {
      hide TreeOk, HMap.Tables, HMap.Load, HMap.Valid, Indexed, Named, StrHash, NoMatch;
      UniqueName(node);
      var found := hmap.Delete(StrHash(node.name), NamedEq(node.name));
      DeletedNode(old(hmap.nodes), nodes, node, found);
      assert found.Some?;
      IndexedRemove(nodes, old(hmap.nodes), node);
      NamedRemove(nodes, sc, scores, node);
      TreeRemove(node);
      scores := scores - {node.name};
    }
  }

  ghost function MemberOf(sc: Scores, z: ZNode): Member
    requires z in sc
  { Member(z.name, sc[z]) }

  /** The members in the order of the tree. */
  ghost function Members(sc: Scores, s: seq<ZNode>): seq<Member>
    requires forall z :: z in s ==> z in sc
  { seq(|s|, i requires 0 <= i < |s| => assert s[i] in s; MemberOf(sc, s[i])) }

  lemma MembersListing(s: seq<ZNode>, nodes: set<ZNode>, sc: Scores, scores: map<bytes, Double>)
    requires (forall z :: z in s <==> z in nodes) && Named(nodes, sc, scores) && Sorted(sc, s)
    ensures IsListing(Members(sc, s), scores)
  {
    var ms := Members(sc, s);
    assert forall i, j :: 0 <= i < j < |ms| ==> Less(sc, s[i], s[j]);
    forall x ensures x in ms <==> x.name in scores && scores[x.name] == x.score {
      if x in ms {
        var i :| 0 <= i < |ms| && ms[i] == x;
        assert s[i] in s;
      }
      if x.name in scores && scores[x.name] == x.score {
        assert HasNode(nodes, x.name);
        var z :| z in nodes && z.name == x.name;
        var i :| 0 <= i < |s| && s[i] == z;
        assert ms[i] == x;
      }
    }
  }

  /** The score map after `zset_insert`: an equal score is left as it was written. */
  function Put(m: map<bytes, Double>, name: bytes, score: Double): map<bytes, Double> {
    if name in m && Key(m[name]) == Key(score) then m else m[name := score]
  }

  /** Under `name` there is a score that compares equal to `score`: the old one if it did before, `score`
      itself if not. Every other name keeps what it had. */
  ghost predicate Rescored(m: map<bytes, Double>, m': map<bytes, Double>, name: bytes, score: Double) {
    && name in m' && Key(m'[name]) == Key(score)
    && m'[name] == (if name in m && Key(m[name]) == Key(score) then m[name] else score)
    && m'.Keys == m.Keys + {name}
    && forall x :: x in m && x != name ==> m'[x] == m[x]
  }

  lemma DeletedNode(index: set<HNode<ZNode>>, nodes: set<ZNode>, z: ZNode, found: Option<HNode<ZNode>>)
    requires Indexed(nodes, index) && z in nodes && forall x :: x in nodes && x.name == z.name ==> x == z
    requires found.Some? ==> found.value in index && NamedEq(z.name)(found.value)
    requires found.None? ==> NoMatch(index, StrHash(z.name), NamedEq(z.name))
    ensures found == Some(IndexNode(z))
  {
    assert IndexNode(z) in index && NamedEq(z.name)(IndexNode(z));
  }

  lemma IndexedAdd(nodes: set<ZNode>, index: set<HNode<ZNode>>, z: ZNode)
    requires Indexed(nodes, index) && FreshKey(index, z.name)
    ensures Indexed(nodes + {z}, index + {IndexNode(z)})
  {}

  lemma IndexedRemove(nodes: set<ZNode>, index: set<HNode<ZNode>>, z: ZNode)
    requires Indexed(nodes, index)
    ensures Indexed(nodes - {z}, index - {IndexNode(z)})
  {}

  lemma NamedAdd(nodes: set<ZNode>, sc: Scores, scores: map<bytes, Double>, z: ZNode, score: Double)
    requires Named(nodes, sc, scores) && z !in nodes && forall x :: x in nodes ==> x.name != z.name
    ensures Named(nodes + {z}, sc[z := score], scores[z.name := score])
  {
    var m := scores[z.name := score];
    forall k | k in m ensures HasNode(nodes + {z}, k) {
      if k == z.name {
        assert z in nodes + {z};
      } else {
        var x :| x in nodes && x.name == k;
        assert x in nodes + {z};
      }
    }
  }

  lemma NamedRemove(nodes: set<ZNode>, sc: Scores, scores: map<bytes, Double>, z: ZNode)
    requires Named(nodes, sc, scores) && z in nodes && forall x :: x in nodes && x.name == z.name ==> x == z
    ensures Named(nodes - {z}, sc, scores - {z.name})
  {
    var m := scores - {z.name};
    forall k | k in m ensures HasNode(nodes - {z}, k) {
      var x :| x in nodes && x.name == k;
      assert x in nodes - {z};
    }
  }

  lemma NamedRescore(nodes: set<ZNode>, sc: Scores, scores: map<bytes, Double>, z: ZNode, score: Double)
    requires Named(nodes, sc, scores) && z in nodes && forall x :: x in nodes && x.name == z.name ==> x == z
    ensures Named(nodes, sc[z := score], scores[z.name := score])
  {
    var m := scores[z.name := score];
    assert forall k :: k in m ==> k == z.name || k in scores;
  }

  lemma {:induction false} SortedWithout(sc: Scores, s: seq<ZNode>, x: ZNode)
    requires Sorted(sc, s)
    ensures Sorted(sc, Without(s, x)) && forall y :: y in Without(s, x) ==> y in s
  {
    if s != [] && s[0] != x {
      SortedWithout(sc, s[1..], x);
      var w := Without(s[1..], x);
      assert forall i :: 0 <= i < |w| ==> w[i] in s[1..];
      assert forall y :: y in s[1..] ==> Less(sc, s[0], y);
    }
  }

  lemma SortedExtend(sc: Scores, s: seq<ZNode>, x: ZNode, score: Double)
    requires Sorted(sc, s) && x !in s
    ensures Sorted(sc[x := score], s)
  {
    assert forall i :: 0 <= i < |s| ==> s[i] in s;
  }

  lemma {:induction false} CountIndex(nodes: set<ZNode>, index: set<HNode<ZNode>>)
    requires Indexed(nodes, index)
    ensures |nodes| == |index|
  {
    if nodes == {} {
      assert index == {};
    } else {
      var z :| z in nodes;
      CountIndex(nodes - {z}, index - {IndexNode(z)});
    }
  }

  lemma NoDupInOrder(t: ZTree)
    requires t.Distinct()
    ensures NoDup(t.InOrder())
  {
    forall j, k | 0 <= j < k < |t.InOrder()| ensures t.InOrder()[j] != t.InOrder()[k] {
      if t.InOrder()[j] == t.InOrder()[k] { RankOnce(t, j, k); }
    }
  }
}
