/** The pointer side of `src/avl.cpp`: nodes with parent links, cached heights and cached
    subtree counts, changed in place.

    A `ZNode` is the record of `src/zset.cpp` with its embedded `AVLNode`, so `container_of`
    is the identity. Every method takes the tree the nodes form as ghost arguments and says
    which tree they form afterwards. */
module AvlNodes {
  import opened AvlTree
  import opened Bytes
  import opened Doubles

  class ZNode {
    var parent: ZNode?
    var left: ZNode?
    var right: ZNode?
    var height: nat
    var cnt: nat
    var score: Double
    const name: bytes

    constructor (name: bytes, score: Double)
      ensures this.name == name && this.score == score
      ensures left == null && right == null && parent == null && height == 1 && cnt == 1
    {
      this.name, this.score := name, score;
      parent, left, right, height, cnt := null, null, null, 1, 1;
    }

    /** `avl_init` */
    method Init()
      modifies this`parent, this`left, this`right, this`height, this`cnt
      ensures left == null && right == null && parent == null && height == 1 && cnt == 1
    {
      parent, left, right, height, cnt := null, null, null, 1, 1;
    }
  }

  type ZTree = Tree<ZNode>
  type ZPath = Path<ZNode>

  function Root(t: ZTree): ZNode? { if t.Br? then t.n else null }

  function Holder(c: ZPath): ZNode? { if c.Top? then null else c.n }

  function HeightOf(n: ZNode?): nat reads n { if n == null then 0 else n.height }

  function CntOf(n: ZNode?): nat reads n { if n == null then 0 else n.cnt }

  /** The nodes of `t` are linked as `t` says, below parent `p`, with exact heights and counts. */
  ghost predicate Linked(t: ZTree, p: ZNode?)
    reads t.Nodes()
  {
    t.Br? ==>
      && t.n.parent == p
      && t.n.left == Root(t.l) && t.n.right == Root(t.r)
      && Linked(t.l, t.n) && Linked(t.r, t.n)
      && t.n.height == t.Height() && t.n.cnt == t.Size()
  }

  /** `n` has the subtrees `l` and `r` below it; its own caches may be stale. */
  ghost predicate Over(n: ZNode, l: ZTree, r: ZTree)
    reads n, l.Nodes(), r.Nodes()
  {
    n.left == Root(l) && n.right == Root(r) && Linked(l, n) && Linked(r, n)
  }

  /** The nodes of `c` are linked as `c` says with `hole` in its hole; the caches of the nodes
      above the hole may be stale. */
  ghost predicate LinkedPath(c: ZPath, hole: ZNode?)
    reads c.Nodes()
  {
    match c
    case Top => true
    case InL(up, n, r) =>
      n.left == hole && n.right == Root(r) && Linked(r, n) && n.parent == Holder(up) && LinkedPath(up, n)
    case InR(up, l, n) =>
      n.right == hole && n.left == Root(l) && Linked(l, n) && n.parent == Holder(up) && LinkedPath(up, n)
  }

  /** `avl_update` */
  method Update(node: ZNode, ghost l: ZTree, ghost r: ZTree)
    requires Over(node, l, r) && Br(l, node, r).Distinct()
    modifies node`height, node`cnt
    ensures Linked(Br(l, node, r), node.parent)
  {
    node.height := 1 + Max(HeightOf(node.left), HeightOf(node.right));
    node.cnt := 1 + CntOf(node.left) + CntOf(node.right);
  }

  /** Three subtrees and the two nodes between them, none overlapping. */
  ghost predicate Apart(a: ZTree, x: ZNode, b: ZTree, y: ZNode, c: ZTree) {
    && Br(Br(a, x, b), y, c).Distinct() && Br(a, x, Br(b, y, c)).Distinct()
    && Br(a, x, b).Distinct() && Br(b, y, c).Distinct()
    && x != y && {x, y} !! a.Nodes() && {x, y} !! b.Nodes() && {x, y} !! c.Nodes()
  }

  lemma TakeApartRight(t: ZTree)
    requires t.Br? && t.r.Br? && t.Distinct() && Over(t.n, t.l, t.r)
    ensures var Br(a, x, Br(b, y, c)) := t;
            && Apart(a, x, b, y, c)
            && t.Nodes() == a.Nodes() + {x} + b.Nodes() + {y} + c.Nodes()
            && Linked(a, x) && Linked(b, y) && Linked(c, y)
            && x.right == y && y.left == Root(b) && y.right == Root(c)
  {
    RotLSame(t);
    assert t.r.Distinct() && RotL(t).l.Distinct();
    assert t.r.Nodes() == t.r.l.Nodes() + {t.r.n} + t.r.r.Nodes();
  }

  lemma TakeApartLeft(t: ZTree)
    requires t.Br? && t.l.Br? && t.Distinct() && Over(t.n, t.l, t.r)
    ensures var Br(Br(a, x, b), y, c) := t;
            && Apart(a, x, b, y, c)
            && t.Nodes() == a.Nodes() + {x} + b.Nodes() + {y} + c.Nodes()
            && Linked(a, x) && Linked(b, x) && Linked(c, y)
            && y.left == x && x.left == Root(a) && x.right == Root(b)
  {
    RotRSame(t);
    assert t.l.Distinct() && RotR(t).r.Distinct();
    assert t.l.Nodes() == t.l.l.Nodes() + {t.l.n} + t.l.r.Nodes();
  }

  /** The common tail of both rotations: give the middle subtree its new parent. */
  method Adopt(child: ZNode?, p: ZNode?, ghost q: ZNode?, ghost t: ZTree, ghost s: set<ZNode>)
    requires t.Nodes() == s && t.Distinct() && child == Root(t)
    requires Linked(t, q)
    modifies s`parent
    ensures Linked(t, p)
  {
    if child != null {
      assert Linked(t.l, child) && Linked(t.r, child);
      child.parent := p;
      assert Linked(t.l, child) && Linked(t.r, child);
    }
  }

  /** The pointer changes of `rot_left`, before the caches are brought up to date. */
  method RelinkLeft(node: ZNode, ghost a: ZTree, ghost b: ZTree, ghost y: ZNode, ghost c: ZTree, ghost s: set<ZNode>)
    returns (newNode: ZNode)
    requires s == a.Nodes() + {node} + b.Nodes() + {y} + c.Nodes()
    requires node != y && {node, y} !! a.Nodes() && {node, y} !! b.Nodes() && {node, y} !! c.Nodes()
    requires a.Nodes() !! b.Nodes() && b.Nodes() !! c.Nodes() && b.Distinct()
    requires node.left == Root(a) && node.right == y && y.left == Root(b) && y.right == Root(c)
    requires Linked(a, node) && Linked(b, y) && Linked(c, y)
    modifies s`parent, s`left, s`right
    ensures newNode == y && y.parent == old(node.parent) && node.parent == y
    ensures node.left == Root(a) && node.right == Root(b) && Linked(a, node) && Linked(b, node)
    ensures y.left == node && y.right == Root(c) && Linked(c, y)
  {
    hide Linked;
    var parent := node.parent;
    newNode := node.right;
    var inner := newNode.left;
    node.right := inner;
    newNode.parent := parent;
    newNode.left := node;
    node.parent := newNode;
    assert Linked(a, node) && Linked(b, y) && Linked(c, y);
    Adopt(inner, node, y, b, b.Nodes());
  }

  /** `rot_left` */
  method RotLeft(node: ZNode, ghost t: ZTree, ghost s: set<ZNode>) returns (newNode: ZNode)
    requires t.Br? && t.r.Br? && t.n == node && t.Distinct() && Over(node, t.l, t.r)
    requires t.Nodes() == s
    modifies s`parent, s`left, s`right, s`height, s`cnt
    ensures newNode == RotL(t).n
    ensures Linked(RotL(t), old(node.parent))
  {
    TakeApartRight(t);
    newNode := RelinkLeft(node, t.l, t.r.l, t.r.n, t.r.r, s);
    Update(node, t.l, t.r.l);
    assert Linked(t.r.r, newNode);
    Update(newNode, Br(t.l, node, t.r.l), t.r.r);
  }

  /** The pointer changes of `rot_right`. */
  method RelinkRight(node: ZNode, ghost a: ZTree, ghost x: ZNode, ghost b: ZTree, ghost c: ZTree, ghost s: set<ZNode>)
    returns (newNode: ZNode)
    requires s == a.Nodes() + {x} + b.Nodes() + {node} + c.Nodes()
    requires node != x && {node, x} !! a.Nodes() && {node, x} !! b.Nodes() && {node, x} !! c.Nodes()
    requires a.Nodes() !! b.Nodes() && b.Nodes() !! c.Nodes() && b.Distinct()
    requires node.right == Root(c) && node.left == x && x.left == Root(a) && x.right == Root(b)
    requires Linked(a, x) && Linked(b, x) && Linked(c, node)
    modifies s`parent, s`left, s`right
    ensures newNode == x && x.parent == old(node.parent) && node.parent == x
    ensures node.left == Root(b) && node.right == Root(c) && Linked(b, node) && Linked(c, node)
    ensures x.right == node && x.left == Root(a) && Linked(a, x)
  {
    hide Linked;
    var parent := node.parent;
    newNode := node.left;
    var inner := newNode.right;
    node.left := inner;
    newNode.parent := parent;
    newNode.right := node;
    node.parent := newNode;
    assert Linked(a, x) && Linked(b, x) && Linked(c, node);
    Adopt(inner, node, x, b, b.Nodes());
  }

  /** `rot_right` */
  method RotRight(node: ZNode, ghost t: ZTree, ghost s: set<ZNode>) returns (newNode: ZNode)
    requires t.Br? && t.l.Br? && t.n == node && t.Distinct() && Over(node, t.l, t.r)
    requires t.Nodes() == s
    modifies s`parent, s`left, s`right, s`height, s`cnt
    ensures newNode == RotR(t).n
    ensures Linked(RotR(t), old(node.parent))
  {
    TakeApartLeft(t);
    newNode := RelinkRight(node, t.l.l, t.l.n, t.l.r, t.r, s);
    Update(node, t.l.r, t.r);
    assert Linked(t.l.l, newNode);
    Update(newNode, t.l.l, Br(t.l.r, node, t.r));
  }

  /** `avl_fix_left` */
  method FixLeft(node: ZNode, ghost t: ZTree, ghost s: set<ZNode>) returns (newNode: ZNode)
    requires t.Br? && t.l.Br? && t.n == node && t.Distinct() && Over(node, t.l, t.r)
    requires t.Nodes() == s
    modifies s`parent, s`left, s`right, s`height, s`cnt
    ensures newNode == FixL(t).n
    ensures Linked(FixL(t), old(node.parent))
  {
    TakeApartLeft(t);
    if HeightOf(node.left.left) < HeightOf(node.left.right) {
      var sub := RotLeft(node.left, t.l, t.l.Nodes());
      node.left := sub;
      RotLSame(t.l);
      newNode := RotRight(node, Br(RotL(t.l), node, t.r), s);
    } else {
      newNode := RotRight(node, t, s);
    }
  }

  /** `avl_fix_right` */
  method FixRight(node: ZNode, ghost t: ZTree, ghost s: set<ZNode>) returns (newNode: ZNode)
    requires t.Br? && t.r.Br? && t.n == node && t.Distinct() && Over(node, t.l, t.r)
    requires t.Nodes() == s
    modifies s`parent, s`left, s`right, s`height, s`cnt
    ensures newNode == FixR(t).n
    ensures Linked(FixR(t), old(node.parent))
  {
    TakeApartRight(t);
    if HeightOf(node.right.right) < HeightOf(node.right.left) {
      var sub := RotRight(node.right, t.r, t.r.Nodes());
      node.right := sub;
      RotRSame(t.r);
      newNode := RotLeft(node, Br(t.l, node, RotR(t.r)), s);
    } else {
      newNode := RotLeft(node, t, s);
    }
  }

  /** The caches of `node`, and a rotation if one is due. */
  method Repair(node: ZNode, ghost t: ZTree, ghost s: set<ZNode>) returns (top: ZNode)
    requires t.Br? && t.n == node && t.Distinct() && Over(node, t.l, t.r) && t.Nodes() == s
    modifies s`parent, s`left, s`right, s`height, s`cnt
    ensures top == Fix1(t).n
    ensures Linked(Fix1(t), old(node.parent))
  {
    Update(node, t.l, t.r);
    var l, r := HeightOf(node.left), HeightOf(node.right);
    top := node;
    if l == r + 2 {
      top := FixLeft(node, t, s);
    } else if l + 2 == r {
      top := FixRight(node, t, s);
    }
  }

  /** `*from = child`, where `from` is the link of `parent` that now holds `hole`. */
  method SetChild(parent: ZNode, hole: ZNode, child: ZNode?, ghost c: ZPath)
    requires !c.Top? && c.n == parent && c.Distinct() && LinkedPath(c, hole)
    requires hole !in c.Nodes()
    modifies parent`left, parent`right
    ensures LinkedPath(c, child)
    ensures forall h, k :: old(ExactPath(c, hole, h, k)) ==> ExactPath(c, child, h, k)
  {
    assert c.InR? ==> parent.left != hole by {
      if c.InR? && c.l.Br? { assert c.l.n in c.Nodes(); }
    }
    if parent.left == hole { parent.left := child; } else { parent.right := child; }
  }

  /** A subtree in its hole: what every round of `avl_fix` starts from. */
  ghost predicate InPlace(c: ZPath, t: ZTree, s: set<ZNode>)
    reads s
  {
    && s == c.Nodes() + t.Nodes() && t.Br?
    && t.Distinct() && c.Distinct() && t.Nodes() !! c.Nodes()
    && Over(t.n, t.l, t.r) && t.n.parent == Holder(c) && LinkedPath(c, t.n)
  }

  ghost function UpPath(c: ZPath): ZPath
    requires !c.Top?
  { c.up }

  ghost function UpTree(c: ZPath, t: ZTree): ZTree
    requires !c.Top?
  { if c.InL? then Br(t, c.n, c.r) else Br(c.l, c.n, t) }

  lemma Ascend(c: ZPath, t: ZTree, s: set<ZNode>)
    requires !c.Top? && s == c.Nodes() + t.Nodes()
    requires t.Distinct() && c.Distinct() && t.Nodes() !! c.Nodes()
    requires Linked(t, Holder(c)) && LinkedPath(c, Root(t))
    ensures InPlace(UpPath(c), UpTree(c, t), s)
  {
  }

  /** One round of the loop of `avl_fix`. */
  method FixHere(node: ZNode, ghost c: ZPath, ghost t: ZTree, ghost s: set<ZNode>) returns (top: ZNode)
    requires InPlace(c, t, s) && t.n == node
    modifies s`parent, s`left, s`right, s`height, s`cnt
    ensures top == Fix1(t).n
    ensures if c.Top? then Linked(Fix1(t), null) else InPlace(UpPath(c), UpTree(c, Fix1(t)), s)
  {
    var parent := node.parent;
    Fix1Same(t);
    top := Repair(node, t, t.Nodes());
    assert LinkedPath(c, node);
    if parent != null && top != node {
      SetChild(parent, node, top, c);
      assert Linked(Fix1(t), Holder(c));
    }
    if !c.Top? { Ascend(c, Fix1(t), s); }
  }

  /** `avl_fix`: repairs every node from `start` up and returns the root. */
  method Fix(start: ZNode, ghost c0: ZPath, ghost t0: ZTree, ghost s: set<ZNode>) returns (root: ZNode)
    requires InPlace(c0, t0, s) && t0.n == start
    modifies s`parent, s`left, s`right, s`height, s`cnt
    ensures root == Root(Climb(c0, Fix1(t0)))
    ensures Linked(Climb(c0, Fix1(t0)), null)
  {
    hide Linked, LinkedPath, Tree.Distinct, Path.Distinct, Fix1;
    var node := start;
    ghost var c, t := c0, t0;
    while true
      invariant InPlace(c, t, s) && t.n == node
      invariant Climb(c, Fix1(t)) == Climb(c0, Fix1(t0))
      decreases c
    {
      var parent := node.parent;
      Fix1Same(t);
      var top := FixHere(node, c, t, s);
      if parent == null {
        return top;
      }
      c, t := UpPath(c), UpTree(c, Fix1(t));
      node := parent;
    }
  }

  // ---------- whole trees ----------

  /** Like `LinkedPath`, and the caches above the hole are exact when the subtree in the hole
      has height `h` and `k` nodes. */
  ghost predicate ExactPath(c: ZPath, hole: ZNode?, h: nat, k: nat)
    reads c.Nodes()
  {
    match c
    case Top => true
    case InL(up, n, r) =>
      && n.left == hole && n.right == Root(r) && Linked(r, n) && n.parent == Holder(up)
      && n.height == 1 + Max(h, r.Height()) && n.cnt == 1 + k + r.Size()
      && ExactPath(up, n, n.height, n.cnt)
    case InR(up, l, n) =>
      && n.right == hole && n.left == Root(l) && Linked(l, n) && n.parent == Holder(up)
      && n.height == 1 + Max(l.Height(), h) && n.cnt == 1 + l.Size() + k
      && ExactPath(up, n, n.height, n.cnt)
  }

  lemma {:induction false} OpenAt(c: ZPath, t: ZTree)
    ensures Linked(c.Plug(t), null)
       <==> Linked(t, Holder(c)) && ExactPath(c, Root(t), t.Height(), t.Size())
    decreases c
  {
    match c
    case Top =>
    case InL(up, n, r) => OpenAt(up, Br(t, n, r));
    case InR(up, l, n) => OpenAt(up, Br(l, n, t));
  }

  lemma {:induction false} ExactIsLinked(c: ZPath, hole: ZNode?, h: nat, k: nat)
    requires ExactPath(c, hole, h, k)
    ensures LinkedPath(c, hole)
  {
    if !c.Top? { ExactIsLinked(c.up, c.n, c.n.height, c.n.cnt); }
  }

  /** `t` is a valid AVL tree of linked nodes. */
  ghost predicate Avl(t: ZTree)
    reads t.Nodes()
  {
    Linked(t, null) && t.Distinct() && t.Balanced()
  }

  lemma PlaceOf(c: ZPath, t: ZTree)
    requires t.Br? && Linked(c.Plug(t), null) && c.Plug(t).Distinct()
    ensures InPlace(c, t, c.Plug(t).Nodes()) && Linked(t, Holder(c))
    ensures ExactPath(c, t.n, t.Height(), t.Size())
  {
    OpenAt(c, t);
    PlugNodes(c, t);
    ExactIsLinked(c, t.n, t.Height(), t.Size());
  }

  /** `avl_del_easy` */
  method DelEasy(node: ZNode, ghost c: ZPath, ghost t: ZTree, ghost s: set<ZNode>) returns (root: ZNode?)
    requires InPlace(c, t, s) && t.n == node && (t.l.Leaf? || t.r.Leaf?)
    modifies s`parent, s`left, s`right, s`height, s`cnt
    ensures var child := if t.l.Leaf? then t.r else t.l;
            root == Root(Climb(c, child)) && Linked(Climb(c, child), null)
  {
    hide Linked, LinkedPath, Path.Distinct, Fix1;
    ghost var sub := if t.l.Leaf? then t.r else t.l;
    var child := if node.left != null then node.left else node.right;
    var parent := node.parent;
    assert sub.Distinct() && sub.Nodes() <= t.Nodes();
    Adopt(child, parent, node, sub, sub.Nodes());
    assert LinkedPath(c, node);
    if parent == null {
      return child;
    }
    SetChild(parent, node, child, c);
    assert Linked(sub, parent);
    Ascend(c, sub, s - {node});
    root := Fix(parent, UpPath(c), UpTree(c, sub), s - {node});
  }

  /** The walk of `avl_del` to the leftmost node of the right subtree. */
  method Successor(node: ZNode, ghost c: ZPath, ghost l: ZTree, ghost r: ZTree)
    returns (victim: ZNode, ghost c': ZPath, ghost vr: ZTree)
    requires Linked(c.Plug(Br(l, node, r)), null) && r.Br?
    requires c.Plug(Br(l, node, r)).Distinct()
    ensures c'.Plug(Br(Leaf, victim, vr)) == c.Plug(Br(l, node, r))
    ensures c'.Before() == c.Before() + l.InOrder() + [node]
    ensures victim != node && node in c.Plug(Br(l, node, r)).Nodes()
  {
    OpenAt(c, Br(l, node, r));
    ghost var t;
    victim, c', t := node.right, InR(c, l, node), r;
    while victim.left != null
      invariant t.Br? && t.n == victim && Linked(t, victim.parent)
      invariant c'.Plug(t) == c.Plug(Br(l, node, r))
      invariant c'.Before() == c.Before() + l.InOrder() + [node]
      decreases t
    {
      victim, c', t := victim.left, InL(c', victim, t.r), t.l;
    }
    vr := t.r;
    PlugNodes(c, Br(l, node, r));
    NotPreceding(c', Leaf, victim, vr);
    assert node == c'.Before()[|c'.Before()| - 1];
  }

  /** The tail of `avl_del`: `victim` takes over the links of `node`. */
  method Replace(node: ZNode, victim: ZNode, top: ZNode?, ghost c: ZPath, ghost l: ZTree, ghost r: ZTree,
      ghost s: set<ZNode>)
    returns (root: ZNode?)
    requires Linked(c.Plug(Br(l, node, r)), null) && c.Plug(Br(l, node, r)).Distinct()
    requires top == Root(c.Plug(Br(l, node, r))) && victim !in c.Plug(Br(l, node, r)).Nodes()
    requires s == c.Plug(Br(l, node, r)).Nodes() + {victim}
    modifies s`parent, s`left, s`right, s`height, s`cnt
    ensures Linked(c.Plug(Br(l, victim, r)), null) && root == Root(c.Plug(Br(l, victim, r)))
  {
    ghost var h, k := node.height, node.cnt;
    PlaceOf(c, Br(l, node, r));
    root := top;
    TakeOver(node, victim, c, l, r, s, h, k);
    if node.parent == null {
      root := victim;
    }
    OpenAt(c, Br(l, victim, r));
    RootOfPlug(c, Br(l, node, r), Br(l, victim, r));
  }

  /** `*victim = *node`, and every link to `node` turned to `victim`. */
  method TakeOver(node: ZNode, victim: ZNode, ghost c: ZPath, ghost l: ZTree, ghost r: ZTree, ghost s: set<ZNode>,
                  ghost h: nat, ghost k: nat)
    requires InPlace(c, Br(l, node, r), s - {victim}) && victim in s && ExactPath(c, node, h, k)
    modifies s`parent, s`left, s`right, s`height, s`cnt
    ensures node.parent == Holder(c)
    ensures victim.parent == Holder(c) && victim.height == old(node.height) && victim.cnt == old(node.cnt)
    ensures Over(victim, l, r) && ExactPath(c, victim, h, k)
  {
    ghost var t := Br(l, node, r);
    assert t.Distinct() && node in t.Nodes() && t.Nodes() == l.Nodes() + {node} + r.Nodes();
    CopyLinks(node, victim, l, r, l.Nodes() + r.Nodes());
    assert ExactPath(c, node, h, k) && LinkedPath(c, node);
    var parent := node.parent;
    if parent != null {
      SetChild(parent, node, victim, c);
      assert Linked(l, victim) && Linked(r, victim);
    }
  }

  /** `*victim = *node`, and the children turned to `victim`. */
  method CopyLinks(node: ZNode, victim: ZNode, ghost l: ZTree, ghost r: ZTree, ghost s: set<ZNode>)
    requires Over(node, l, r) && l.Distinct() && r.Distinct() && l.Nodes() !! r.Nodes()
    requires s == l.Nodes() + r.Nodes() && victim !in s && node !in s && victim != node
    modifies victim`left, victim`right, victim`parent, victim`height, victim`cnt, s`parent
    ensures Over(victim, l, r)
    ensures victim.parent == node.parent && victim.height == node.height && victim.cnt == node.cnt
  {
    victim.parent, victim.left, victim.right := node.parent, node.left, node.right;
    victim.height, victim.cnt := node.height, node.cnt;
    assert Linked(l, node) && Linked(r, node);
    Adopt(victim.left, victim, node, l, l.Nodes());
    assert Linked(r, node);
    Adopt(victim.right, victim, node, r, r.Nodes());
  }

  lemma {:induction false} RootOfPlug(c: ZPath, t: ZTree, t': ZTree)
    requires t.Br? && t'.Br?
    ensures Root(c.Plug(t')) == if c.Top? then t'.n else Root(c.Plug(t))
  {
    if !c.Top? { RootOfPlug(c.up, UpTree(c, t), UpTree(c, t')); }
  }

  /** `avl_del`: takes `node` out of the tree `t` and leaves a valid tree of the other nodes, in the
      same order. */
  method Del(node: ZNode, ghost t: ZTree, ghost s: set<ZNode>) returns (root: ZNode?, ghost t': ZTree)
    requires Avl(t) && node in t.Nodes() && s == t.Nodes()
    modifies s`parent, s`left, s`right, s`height, s`cnt
    ensures Avl(t') && root == Root(t')
    ensures t'.Nodes() == s - {node}
    ensures t'.InOrder() == Without(t.InOrder(), node)
  {
    ghost var c, l, r := Locate(t, node);
    PlaceOf(c, Br(l, node, r));
    if node.left == null || node.right == null {
      root := DelEasy(node, c, Br(l, node, r), s);
      t' := Climb(c, if l.Leaf? then r else l);
      EasyDelete(c, l, node, r);
      WithoutPlug(c, l, node, r);
    } else {
      root, t' := DelInner(node, c, l, r, s);
      WithoutPlug(c, l, node, r);
    }
  }

  lemma WithoutPlug(c: ZPath, l: ZTree, x: ZNode, r: ZTree)
    requires c.Plug(Br(l, x, r)).Distinct()
    ensures Without(c.Plug(Br(l, x, r)).InOrder(), x) == Preceding(c, l) + Following(c, r)
  {
    PlugAround(c, l, x, r);
    NotPreceding(c, l, x, r);
    WithoutSplit(Preceding(c, l), x, Following(c, r));
  }

  /** `avl_del` of a node with two children. */
  method DelInner(node: ZNode, ghost c: ZPath, ghost l: ZTree, ghost r: ZTree, ghost s: set<ZNode>)
    returns (root: ZNode?, ghost t': ZTree)
    requires Avl(c.Plug(Br(l, node, r))) && s == c.Plug(Br(l, node, r)).Nodes() && l.Br? && r.Br?
    modifies s`parent, s`left, s`right, s`height, s`cnt
    ensures Avl(t') && root == Root(t')
    ensures t'.Nodes() == s - {node}
    ensures t'.InOrder() == Preceding(c, l) + Following(c, r)
  {
    ghost var c', vr;
    var victim;
    victim, c', vr := Successor(node, c, l, r);
    PlaceOf(c', Br(Leaf, victim, vr));
    var top := DelEasy(victim, c', Br(Leaf, victim, vr), s);
    EasyDelete(c', Leaf, victim, vr);
    ghost var t1 := Climb(c', vr);
    ghost var c1, l1, r1 := Locate(t1, node);
    root := Replace(node, victim, top, c1, l1, r1, s);
    t' := c1.Plug(Br(l1, victim, r1));
    Exchange(c1, l1, node, victim, r1);
    SameOrder(c, l, node, r, c', victim, vr, c1, l1, r1);
  }

  lemma SameOrder(c: ZPath, l: ZTree, x: ZNode, r: ZTree, c': ZPath, v: ZNode, vr: ZTree, c1: ZPath, l1: ZTree,
      r1: ZTree)
    requires c.Plug(Br(l, x, r)).Distinct()
    requires c'.Plug(Br(Leaf, v, vr)) == c.Plug(Br(l, x, r)) && c'.Before() == c.Before() + l.InOrder() + [x]
    requires c1.Plug(Br(l1, x, r1)).Distinct()
    requires c1.Plug(Br(l1, x, r1)).InOrder() == Preceding(c', Leaf) + Following(c', vr)
    ensures c1.Plug(Br(l1, v, r1)).InOrder() == Preceding(c, l) + Following(c, r)
  {
    PlugAround(c, l, x, r);
    PlugAround(c', Leaf, v, vr);
    PlugAround(c1, l1, x, r1);
    PlugAround(c1, l1, v, r1);
    NotPreceding(c, l, x, r);
    NotPreceding(c1, l1, x, r1);
    assert Preceding(c', Leaf) == Preceding(c, l) + [x];
    ExchangeOrder(Preceding(c, l), x, Following(c, r), v, Following(c', vr), Preceding(c1, l1), Following(c1, r1));
  }

  // ---------- moving by rank ----------

  /** The place of `node` in the linked tree `t`. */
  ghost predicate At(t: ZTree, c: ZPath, l: ZTree, node: ZNode, r: ZTree)
    reads t.Nodes()
  {
    t == c.Plug(Br(l, node, r)) && Linked(t, null) && t.Distinct()
  }

  /** The subtree in the hole of `c` holds rank `k`. */
  ghost predicate Holds(c: ZPath, l: ZTree, r: ZTree, k: int) {
    Rank(c, l) - l.Size() <= k <= Rank(c, l) + r.Size()
  }

  /** How many more moves `avl_offset` can make on its way to rank `k`: up until the subtree holds
      that rank, and then only down. */
  ghost function Cost(t: ZTree, c: ZPath, l: ZTree, node: ZNode, r: ZTree, k: int): nat {
    if Holds(c, l, r, k) then Br(l, node, r).Height() else c.Depth() + t.Height()
  }

  /** What the caches of a node say. */
  lemma Neighbours(t: ZTree, c: ZPath, l: ZTree, node: ZNode, r: ZTree)
    requires At(t, c, l, node, r)
    ensures node.left == Root(l) && node.right == Root(r) && node.parent == Holder(c)
    ensures CntOf(node.left) == l.Size() && CntOf(node.right) == r.Size()
  {
    OpenAt(c, Br(l, node, r));
  }

  lemma DescendRight(t: ZTree, c: ZPath, l: ZTree, node: ZNode, r: ZTree, k: int)
    requires At(t, c, l, node, r) && Rank(c, l) < k <= Rank(c, l) + r.Size()
    ensures r.Br? && At(t, InR(c, l, node), r.l, r.n, r.r)
    ensures Rank(InR(c, l, node), r.l) == Rank(c, l) + r.l.Size() + 1
    ensures Cost(t, InR(c, l, node), r.l, r.n, r.r, k) < Cost(t, c, l, node, r, k)
  {
    InOrderNodes(l);
    assert Holds(InR(c, l, node), r.l, r.r, k);
  }

  lemma DescendLeft(t: ZTree, c: ZPath, l: ZTree, node: ZNode, r: ZTree, k: int)
    requires At(t, c, l, node, r) && Rank(c, l) - l.Size() <= k < Rank(c, l)
    ensures l.Br? && At(t, InL(c, node, r), l.l, l.n, l.r)
    ensures Rank(InL(c, node, r), l.l) == Rank(c, l) - l.r.Size() - 1
    ensures Cost(t, InL(c, node, r), l.l, l.n, l.r, k) < Cost(t, c, l, node, r, k)
  {
    assert Holds(InL(c, node, r), l.l, l.r, k);
  }

  lemma ClimbOne(t: ZTree, c: ZPath, l: ZTree, node: ZNode, r: ZTree)
    requires At(t, c, l, node, r) && !c.Top?
    ensures c.n.right == node <==> c.InR?
    ensures c.InL? ==> At(t, c.up, Br(l, node, r), c.n, c.r) && Rank(c.up, Br(l, node, r)) == Rank(c, l) + r.Size() + 1
    ensures c.InR? ==> At(t, c.up, c.l, c.n, Br(l, node, r)) && Rank(c.up, c.l) == Rank(c, l) - l.Size() - 1
  {
    OpenAt(c, Br(l, node, r));
    PlugNodes(c, Br(l, node, r));
    if c.InR? { InOrderNodes(c.l); }
    if c.InL? && c.r.Br? { assert c.r.n in c.Nodes(); }
    assert node in Br(l, node, r).Nodes();
  }

  lemma ClimbCost(t: ZTree, c: ZPath, l: ZTree, node: ZNode, r: ZTree, k: int)
    requires t == c.Plug(Br(l, node, r)) && !c.Top? && !Holds(c, l, r, k)
    ensures c.InL? ==> Cost(t, c.up, Br(l, node, r), c.n, c.r, k) < Cost(t, c, l, node, r, k)
    ensures c.InR? ==> Cost(t, c.up, c.l, c.n, Br(l, node, r), k) < Cost(t, c, l, node, r, k)
  {
    DepthHeight(c.up, UpTree(c, Br(l, node, r)));
  }

  /** `avl_offset`: the node `offset` ranks away from `start`, or null if there is none. */
  method Offset(start: ZNode, offset: int, ghost t: ZTree, ghost rank: nat) returns (res: ZNode?, ghost steps: nat)
    requires Linked(t, null) && t.Distinct() && rank < |t.InOrder()| && t.InOrder()[rank] == start
    ensures res == if 0 <= rank + offset < |t.InOrder()| then t.InOrder()[rank + offset] else null
    ensures steps <= 2 * t.Height()
  {
    InOrderAt(t);
    ghost var c, l, r := Locate(t, start);
    ghost var k := rank + offset;
    RankAround(c, l, start, r);
    RankOnce(t, rank, Rank(c, l));
    DepthHeight(c, Br(l, start, r));
    var pos, node: ZNode := 0, start;
    steps := 0;
    while offset != pos
      invariant At(t, c, l, node, r)
      invariant pos == Rank(c, l) - rank
      invariant steps + Cost(t, c, l, node, r, k) <= 2 * t.Height()
      decreases Cost(t, c, l, node, r, k)
    {
      Neighbours(t, c, l, node, r);
      if pos < offset && pos + CntOf(node.right) >= offset {
        DescendRight(t, c, l, node, r, k);
        node, c, l, r := node.right, InR(c, l, node), r.l, r.r;
        Neighbours(t, c, l, node, r);
        pos := pos + CntOf(node.left) + 1;
      } else if pos > offset && pos - CntOf(node.left) <= offset {
        DescendLeft(t, c, l, node, r, k);
        node, c, l, r := node.left, InL(c, node, r), l.l, l.r;
        Neighbours(t, c, l, node, r);
        pos := pos - (CntOf(node.right) + 1);
      } else {
        var parent := node.parent;
        if parent == null {
          RankAround(c, l, node, r);
          return null, steps;
        }
        ClimbOne(t, c, l, node, r);
        ClimbCost(t, c, l, node, r, k);
        if parent.right == node {
          pos := pos - (CntOf(node.left) + 1);
          l, r := c.l, Br(l, node, r);
        } else {
          pos := pos + CntOf(node.right) + 1;
          l, r := Br(l, node, r), c.r;
        }
        node, c := parent, c.up;
      }
      steps := steps + 1;
    }
    RankAround(c, l, node, r);
    return node, steps;
  }
}
