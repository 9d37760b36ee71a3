/** The mathematical side of `src/avl.cpp`: trees of node identities, the path from a
    node up to the root, and the rotations as functions on trees.

    The imperative model (module AvlNodes) proves that the pointer code realises these
    functions; this module proves what the functions preserve. */
module AvlTree {

  datatype Tree<N> = Leaf | Br(l: Tree<N>, n: N, r: Tree<N>)
  {
    ghost function Nodes(): set<N> {
      match this
      case Leaf => {}
      case Br(l, n, r) => l.Nodes() + {n} + r.Nodes()
    }

    function InOrder(): seq<N> {
      match this
      case Leaf => []
      case Br(l, n, r) => l.InOrder() + [n] + r.InOrder()
    }

    function Height(): nat {
      match this
      case Leaf => 0
      case Br(l, _, r) => 1 + Max(l.Height(), r.Height())
    }

    function Size(): nat {
      match this
      case Leaf => 0
      case Br(l, _, r) => 1 + l.Size() + r.Size()
    }

    /** No node occurs twice. */
    ghost predicate Distinct() {
      match this
      case Leaf => true
      case Br(l, n, r) =>
        && l.Distinct() && r.Distinct()
        && n !in l.Nodes() && n !in r.Nodes() && l.Nodes() !! r.Nodes()
    }

    ghost predicate Balanced() {
      match this
      case Leaf => true
      case Br(l, _, r) =>
        && l.Balanced() && r.Balanced()
        && l.Height() <= r.Height() + 1 && r.Height() <= l.Height() + 1
    }
  }

  function Max(a: nat, b: nat): nat { if a < b then b else a }

  /** The way from a subtree up to the root: the hole is the left (`InL`) or right (`InR`)
      child of `n`, whose other child is given. */
  datatype Path<N> = Top | InL(up: Path<N>, n: N, r: Tree<N>) | InR(up: Path<N>, l: Tree<N>, n: N)
  {
    ghost function Nodes(): set<N> {
      match this
      case Top => {}
      case InL(up, n, r) => up.Nodes() + {n} + r.Nodes()
      case InR(up, l, n) => up.Nodes() + {n} + l.Nodes()
    }

    /** What comes before the hole in order. */
    function Before(): seq<N> {
      match this
      case Top => []
      case InL(up, _, _) => up.Before()
      case InR(up, l, n) => up.Before() + l.InOrder() + [n]
    }

    /** What comes after the hole in order. */
    function After(): seq<N> {
      match this
      case Top => []
      case InL(up, n, r) => [n] + r.InOrder() + up.After()
      case InR(up, _, _) => up.After()
    }

    function Depth(): nat {
      if Top? then 0 else 1 + up.Depth()
    }

    ghost predicate Distinct() {
      match this
      case Top => true
      case InL(up, n, r) =>
        && up.Distinct() && r.Distinct()
        && n !in up.Nodes() && n !in r.Nodes() && r.Nodes() !! up.Nodes()
      case InR(up, l, n) =>
        && up.Distinct() && l.Distinct()
        && n !in up.Nodes() && n !in l.Nodes() && l.Nodes() !! up.Nodes()
    }

    function Plug(t: Tree<N>): Tree<N> {
      match this
      case Top => t
      case InL(up, n, r) => up.Plug(Br(t, n, r))
      case InR(up, l, n) => up.Plug(Br(l, n, t))
    }

    /** Every node above the hole would be in balance if the hole had height `h`. */
    ghost predicate BalancedAt(h: nat) {
      match this
      case Top => true
      case InL(up, _, r) =>
        r.Balanced() && Near(h, r.Height()) && up.BalancedAt(1 + Max(h, r.Height()))
      case InR(up, l, _) =>
        l.Balanced() && Near(h, l.Height()) && up.BalancedAt(1 + Max(l.Height(), h))
    }
  }

  predicate Near(a: nat, b: nat) { a <= b + 1 && b <= a + 1 }

  // ---------- the rotations and repairs as functions ----------

  function RotL<N>(t: Tree<N>): Tree<N>
    requires t.Br? && t.r.Br?
  { Br(Br(t.l, t.n, t.r.l), t.r.n, t.r.r) }

  function RotR<N>(t: Tree<N>): Tree<N>
    requires t.Br? && t.l.Br?
  { Br(t.l.l, t.l.n, Br(t.l.r, t.n, t.r)) }

  function FixL<N>(t: Tree<N>): Tree<N>
    requires t.Br? && t.l.Br?
  {
    if t.l.l.Height() < t.l.r.Height() then RotR(Br(RotL(t.l), t.n, t.r)) else RotR(t)
  }

  function FixR<N>(t: Tree<N>): Tree<N>
    requires t.Br? && t.r.Br?
  {
    if t.r.r.Height() < t.r.l.Height() then RotL(Br(t.l, t.n, RotR(t.r))) else RotL(t)
  }

  /** One round of `avl_fix` at one node. */
  function Fix1<N>(t: Tree<N>): Tree<N>
    requires t.Br?
  {
    if t.l.Height() == t.r.Height() + 2 then FixL(t)
    else if t.l.Height() + 2 == t.r.Height() then FixR(t)
    else t
  }

  /** What is left of `avl_fix` above the hole of `c` once the subtree `t` in it is sound. */
  function Climb<N>(c: Path<N>, t: Tree<N>): Tree<N>
    decreases c
  {
    match c
    case Top => t
    case InL(up, n, r) => Climb(up, Fix1(Br(t, n, r)))
    case InR(up, l, n) => Climb(up, Fix1(Br(l, n, t)))
  }

  // ---------- what they preserve ----------

  lemma RotLSame<N>(t: Tree<N>)
    requires t.Br? && t.r.Br?
    ensures RotL(t).InOrder() == t.InOrder()
    ensures RotL(t).Nodes() == t.Nodes()
    ensures t.Distinct() ==> RotL(t).Distinct()
  {
    var Br(a, x, Br(b, y, c)) := t;
    assert RotL(t).InOrder() == t.InOrder() by {
      assert t.r.InOrder() == b.InOrder() + [y] + c.InOrder();
      assert RotL(t).l.InOrder() == a.InOrder() + [x] + b.InOrder();
    }
    assert t.r.Nodes() == b.Nodes() + {y} + c.Nodes();
    assert RotL(t).l.Nodes() == a.Nodes() + {x} + b.Nodes();
    if t.Distinct() {
      assert t.r.Distinct();
      assert RotL(t).l.Distinct();
    }
  }

  lemma RotRSame<N>(t: Tree<N>)
    requires t.Br? && t.l.Br?
    ensures RotR(t).InOrder() == t.InOrder()
    ensures RotR(t).Nodes() == t.Nodes()
    ensures t.Distinct() ==> RotR(t).Distinct()
  {
    var Br(Br(a, x, b), y, c) := t;
    assert RotR(t).InOrder() == t.InOrder() by {
      assert t.l.InOrder() == a.InOrder() + [x] + b.InOrder();
      assert RotR(t).r.InOrder() == b.InOrder() + [y] + c.InOrder();
    }
    assert t.l.Nodes() == a.Nodes() + {x} + b.Nodes();
    assert RotR(t).r.Nodes() == b.Nodes() + {y} + c.Nodes();
    if t.Distinct() {
      assert t.l.Distinct();
      assert RotR(t).r.Distinct();
    }
  }

  lemma Fix1Same<N>(t: Tree<N>)
    requires t.Br?
    ensures Fix1(t).Br?
    ensures Fix1(t).InOrder() == t.InOrder()
    ensures Fix1(t).Nodes() == t.Nodes()
    ensures t.Distinct() ==> Fix1(t).Distinct()
  {
    if t.l.Height() == t.r.Height() + 2 {
      if t.l.l.Height() < t.l.r.Height() {
        RotLSame(t.l);
        RotRSame(Br(RotL(t.l), t.n, t.r));
      } else {
        RotRSame(t);
      }
    } else if t.l.Height() + 2 == t.r.Height() {
      if t.r.r.Height() < t.r.l.Height() {
        RotRSame(t.r);
        RotLSame(Br(t.l, t.n, RotR(t.r)));
      } else {
        RotLSame(t);
      }
    }
  }

  lemma JoinLeft<N>(a: seq<N>, b: seq<N>, x: N, c: seq<N>, d: seq<N>)
    ensures a + (b + [x] + c) + d == a + b + ([x] + c + d)
  {}

  lemma JoinRight<N>(a: seq<N>, b: seq<N>, x: N, c: seq<N>, d: seq<N>)
    ensures a + (b + [x] + c) + d == (a + b + [x]) + c + d
  {}

  lemma {:induction false} ClimbInOrder<N>(c: Path<N>, t: Tree<N>)
    ensures Climb(c, t).InOrder() == c.Before() + t.InOrder() + c.After()
    decreases c
  {
    hide Fix1;
    match c
    case Top =>
    case InL(up, n, r) =>
      Fix1Same(Br(t, n, r));
      ClimbInOrder(up, Fix1(Br(t, n, r)));
      JoinLeft(up.Before(), t.InOrder(), n, r.InOrder(), up.After());
    case InR(up, l, n) =>
      Fix1Same(Br(l, n, t));
      ClimbInOrder(up, Fix1(Br(l, n, t)));
      JoinRight(up.Before(), l.InOrder(), n, t.InOrder(), up.After());
  }

  lemma {:induction false} ClimbNodes<N>(c: Path<N>, t: Tree<N>)
    requires t.Distinct() && c.Distinct() && t.Nodes() !! c.Nodes()
    ensures Climb(c, t).Distinct()
    ensures Climb(c, t).Nodes() == c.Nodes() + t.Nodes()
    decreases c
  {
    hide Fix1;
    if !c.Top? {
      var t' := if c.InL? then Br(t, c.n, c.r) else Br(c.l, c.n, t);
      Fix1Same(t');
      ClimbNodes(c.up, Fix1(t'));
    }
  }

  /** `t` is about to be repaired: its subtrees are in balance, they differ by at most two,
      and once repaired its height is within one of `h`. */
  ghost predicate Repairable<N>(t: Tree<N>, h: nat) {
    && t.Br? && t.l.Balanced() && t.r.Balanced()
    && (Near(t.l.Height(), t.r.Height()) ==> Near(t.Height(), h))
    && (!Near(t.l.Height(), t.r.Height()) ==>
          && (t.l.Height() == t.r.Height() + 2 || t.l.Height() + 2 == t.r.Height())
          && (h == t.Height() || h + 1 == t.Height()))
  }

  lemma FixLBalanced<N>(t: Tree<N>)
    requires t.Br? && t.l.Balanced() && t.r.Balanced() && t.l.Height() == t.r.Height() + 2
    ensures FixL(t).Balanced()
    ensures t.Height() - 1 <= FixL(t).Height() <= t.Height()
  {
    var Br(Br(a, x, b), y, c) := t;
    if a.Height() < b.Height() {
      var Br(b1, z, b2) := b;
      assert RotL(t.l) == Br(Br(a, x, b1), z, b2);
      assert FixL(t) == Br(Br(a, x, b1), z, Br(b2, y, c));
      assert Br(a, x, b1).Balanced() && Br(b2, y, c).Balanced();
    } else {
      assert FixL(t) == Br(a, x, Br(b, y, c));
      assert Br(b, y, c).Balanced();
    }
  }

  lemma FixRBalanced<N>(t: Tree<N>)
    requires t.Br? && t.l.Balanced() && t.r.Balanced() && t.l.Height() + 2 == t.r.Height()
    ensures FixR(t).Balanced()
    ensures t.Height() - 1 <= FixR(t).Height() <= t.Height()
  {
    var Br(a, x, Br(b, y, c)) := t;
    if c.Height() < b.Height() {
      var Br(b1, z, b2) := b;
      assert RotR(t.r) == Br(b1, z, Br(b2, y, c));
      assert FixR(t) == Br(Br(a, x, b1), z, Br(b2, y, c));
      assert Br(a, x, b1).Balanced() && Br(b2, y, c).Balanced();
    } else {
      assert FixR(t) == Br(Br(a, x, b), y, c);
      assert Br(a, x, b).Balanced();
    }
  }

  lemma Fix1Balanced<N>(t: Tree<N>, h: nat)
    requires Repairable(t, h)
    ensures Fix1(t).Balanced() && Near(Fix1(t).Height(), h)
  {
    if t.l.Height() == t.r.Height() + 2 {
      FixLBalanced(t);
    } else if t.l.Height() + 2 == t.r.Height() {
      FixRBalanced(t);
    }
  }

  /** One level up the same holds again, with the height the parent would have had. */
  lemma RepairableUp<N>(t: Tree<N>, h: nat, n: N, o: Tree<N>)
    requires t.Balanced() && Near(t.Height(), h) && o.Balanced() && Near(h, o.Height())
    ensures Repairable(Br(t, n, o), 1 + Max(h, o.Height()))
    ensures Repairable(Br(o, n, t), 1 + Max(o.Height(), h))
  {
  }

  /** Where every node above the hole would be in balance with height `h` in it, `avl_fix` restores
      balance for a subtree one taller or one shorter. */
  lemma {:induction false} ClimbBalanced<N>(c: Path<N>, t: Tree<N>, h: nat)
    requires t.Balanced() && Near(t.Height(), h) && c.BalancedAt(h)
    ensures Climb(c, t).Balanced()
    decreases c
  {
    hide Fix1, Repairable, Tree.Balanced;
    if !c.Top? {
      var o := if c.InL? then c.r else c.l;
      var t' := if c.InL? then Br(t, c.n, o) else Br(o, c.n, t);
      var h' := if c.InL? then 1 + Max(h, o.Height()) else 1 + Max(o.Height(), h);
      RepairableUp(t, h, c.n, o);
      Fix1Balanced(t', h');
      ClimbBalanced(c.up, Fix1(t'), h');
    }
  }

  // ---------- taking a tree apart at a node, and putting it back ----------

  lemma {:induction false} PlugInOrder<N>(c: Path<N>, t: Tree<N>)
    ensures c.Plug(t).InOrder() == c.Before() + t.InOrder() + c.After()
    decreases c
  {
    match c
    case Top =>
    case InL(up, n, r) =>
      PlugInOrder(up, Br(t, n, r));
      JoinLeft(up.Before(), t.InOrder(), n, r.InOrder(), up.After());
    case InR(up, l, n) =>
      PlugInOrder(up, Br(l, n, t));
      JoinRight(up.Before(), l.InOrder(), n, t.InOrder(), up.After());
  }

  lemma {:induction false} PlugNodes<N>(c: Path<N>, t: Tree<N>)
    ensures c.Plug(t).Nodes() == c.Nodes() + t.Nodes()
    ensures c.Plug(t).Distinct() <==> c.Distinct() && t.Distinct() && c.Nodes() !! t.Nodes()
    decreases c
  {
    match c
    case Top =>
    case InL(up, n, r) => PlugNodes(up, Br(t, n, r));
    case InR(up, l, n) => PlugNodes(up, Br(l, n, t));
  }

  lemma {:induction false} PlugBalanced<N>(c: Path<N>, t: Tree<N>)
    requires c.Plug(t).Balanced()
    ensures t.Balanced() && c.BalancedAt(t.Height())
    decreases c
  {
    match c
    case Top =>
    case InL(up, n, r) =>
      PlugBalanced(up, Br(t, n, r));
      assert Br(t, n, r).Height() == 1 + Max(t.Height(), r.Height());
    case InR(up, l, n) =>
      PlugBalanced(up, Br(l, n, t));
      assert Br(l, n, t).Height() == 1 + Max(l.Height(), t.Height());
  }

  lemma {:induction false} PlugRebalanced<N>(c: Path<N>, t: Tree<N>)
    requires t.Balanced() && c.BalancedAt(t.Height())
    ensures c.Plug(t).Balanced()
    decreases c
  {
    if !c.Top? {
      PlugRebalanced(c.up, if c.InL? then Br(t, c.n, c.r) else Br(c.l, c.n, t));
    }
  }

  lemma {:induction false} LocateBelow<N>(up: Path<N>, t: Tree<N>, x: N)
    returns (c: Path<N>, l: Tree<N>, r: Tree<N>)
    requires x in t.Nodes()
    ensures c.Plug(Br(l, x, r)) == up.Plug(t)
    decreases t
  {
    if t.n == x {
      c, l, r := up, t.l, t.r;
    } else if x in t.l.Nodes() {
      c, l, r := LocateBelow(InL(up, t.n, t.r), t.l, x);
    } else {
      c, l, r := LocateBelow(InR(up, t.l, t.n), t.r, x);
    }
  }

  /** Every node of a tree sits in a hole of it. */
  lemma Locate<N>(t: Tree<N>, x: N) returns (c: Path<N>, l: Tree<N>, r: Tree<N>)
    requires x in t.Nodes()
    ensures t == c.Plug(Br(l, x, r))
  {
    c, l, r := LocateBelow(Top, t, x);
  }

  lemma {:induction false} InOrderNodes<N>(t: Tree<N>)
    ensures forall x :: x in t.InOrder() <==> x in t.Nodes()
    ensures |t.InOrder()| == t.Size()
  {
    if t.Br? {
      InOrderNodes(t.l);
      InOrderNodes(t.r);
    }
  }

  lemma {:induction false} PathNodes<N>(c: Path<N>)
    ensures forall x :: x in c.Before() || x in c.After() ==> x in c.Nodes()
  {
    match c
    case Top =>
    case InL(up, n, r) => PathNodes(up); InOrderNodes(r);
    case InR(up, l, n) => PathNodes(up); InOrderNodes(l);
  }

  /** `s` without the first occurrence of `x`. */
  function Without<N(==)>(s: seq<N>, x: N): seq<N> {
    if s == [] then [] else if s[0] == x then s[1..] else [s[0]] + Without(s[1..], x)
  }

  lemma {:induction false} WithoutSplit<N>(p: seq<N>, x: N, q: seq<N>)
    requires x !in p
    ensures Without(p + [x] + q, x) == p + q
  {
    var s := p + [x] + q;
    if p == [] {
      assert s[1..] == q;
    } else {
      assert s[1..] == p[1..] + [x] + q;
      WithoutSplit(p[1..], x, q);
      assert [p[0]] + (p[1..] + q) == p + q;
    }
  }

  /** A sequence splits at a first occurrence in one way only. */
  lemma {:induction false} SplitOnce<N>(p: seq<N>, x: N, q: seq<N>, p': seq<N>, q': seq<N>)
    requires p + [x] + q == p' + [x] + q' && x !in p && x !in p'
    ensures p == p' && q == q'
  {
    var s := p + [x] + q;
    assert forall i :: 0 <= i < |p| ==> s[i] == p[i] && p[i] != x;
    assert forall i :: 0 <= i < |p'| ==> s[i] == p'[i] && p'[i] != x;
    assert s[|p|] == x && s[|p'|] == x;
    assert p == s[..|p|] && p' == s[..|p'|] && q == s[|p| + 1..] && q' == s[|p'| + 1..];
  }

  /** The in-order sequence seen from a node: what is before it and what is after it. */
  function Preceding<N>(c: Path<N>, l: Tree<N>): seq<N> { c.Before() + l.InOrder() }
  function Following<N>(c: Path<N>, r: Tree<N>): seq<N> { r.InOrder() + c.After() }

  lemma PlugAround<N>(c: Path<N>, l: Tree<N>, x: N, r: Tree<N>)
    ensures c.Plug(Br(l, x, r)).InOrder() == Preceding(c, l) + [x] + Following(c, r)
  {
    PlugInOrder(c, Br(l, x, r));
  }

  lemma NotPreceding<N>(c: Path<N>, l: Tree<N>, x: N, r: Tree<N>)
    requires c.Plug(Br(l, x, r)).Distinct()
    ensures x !in Preceding(c, l)
  {
    PlugNodes(c, Br(l, x, r));
    assert Br(l, x, r).Distinct() && x in Br(l, x, r).Nodes();
    PathNodes(c);
    InOrderNodes(l);
  }

  function Rank<N>(c: Path<N>, l: Tree<N>): nat { |c.Before()| + l.Size() }

  /** The node in the hole of `c` has rank `Rank(c, l)`, and its subtree holds the ranks around it. */
  lemma RankAround<N>(c: Path<N>, l: Tree<N>, x: N, r: Tree<N>)
    ensures var s := c.Plug(Br(l, x, r)).InOrder();
            && Rank(c, l) < |s| && s[Rank(c, l)] == x
            && |s| == Rank(c, l) + 1 + r.Size() + |c.After()|
  {
    PlugAround(c, l, x, r);
    InOrderNodes(l);
    InOrderNodes(r);
  }

  lemma {:induction false} DepthHeight<N>(c: Path<N>, t: Tree<N>)
    ensures c.Depth() + t.Height() <= c.Plug(t).Height()
    decreases c
  {
    if !c.Top? {
      DepthHeight(c.up, if c.InL? then Br(t, c.n, c.r) else Br(c.l, c.n, t));
    }
  }

  lemma InOrderAt<N>(t: Tree<N>)
    ensures forall i :: 0 <= i < |t.InOrder()| ==> t.InOrder()[i] in t.Nodes()
  {
    InOrderNodes(t);
    assert forall i :: 0 <= i < |t.InOrder()| ==> t.InOrder()[i] in t.InOrder();
  }

  /** Which side of the root the node of rank `i` is on. */
  lemma RankSide<N>(l: Tree<N>, n: N, r: Tree<N>, i: nat)
    requires i < l.Size() + 1 + r.Size()
    ensures var s := Br(l, n, r).InOrder();
            && |s| == l.Size() + 1 + r.Size() && |l.InOrder()| == l.Size() && |r.InOrder()| == r.Size()
            && (i < l.Size() ==> s[i] == l.InOrder()[i])
            && (i == l.Size() ==> s[i] == n)
            && (i > l.Size() ==> s[i] == r.InOrder()[i - l.Size() - 1])
  {
    InOrderNodes(l);
    InOrderNodes(r);
  }

  /** A node has only one rank. */
  lemma {:induction false} RankOnce<N>(t: Tree<N>, i: nat, j: nat)
    requires t.Distinct() && i < |t.InOrder()| && j < |t.InOrder()| && t.InOrder()[i] == t.InOrder()[j]
    ensures i == j
  {
    InOrderNodes(t);
    var k := t.l.Size();
    RankSide(t.l, t.n, t.r, i);
    RankSide(t.l, t.n, t.r, j);
    InOrderAt(t.l);
    InOrderAt(t.r);
    if i < k {
      RankOnce(t.l, i, j);
    } else if i > k {
      RankOnce(t.r, i - k - 1, j - k - 1);
    }
  }

  /** Removing a node with at most one child: its child takes its place and the rest is repaired. */
  lemma EasyDelete<N>(c: Path<N>, l: Tree<N>, x: N, r: Tree<N>)
    requires l.Leaf? || r.Leaf?
    requires c.Plug(Br(l, x, r)).Distinct() && c.Plug(Br(l, x, r)).Balanced()
    ensures var t' := Climb(c, if l.Leaf? then r else l);
            && t'.Distinct() && t'.Balanced()
            && t'.Nodes() == c.Plug(Br(l, x, r)).Nodes() - {x}
            && t'.InOrder() == Preceding(c, l) + Following(c, r)
  {
    EasyNodes(c, l, x, r);
    EasyBalanced(c, l, x, r);
    EasyOrder(c, l, r);
  }

  lemma EasyOrder<N>(c: Path<N>, l: Tree<N>, r: Tree<N>)
    requires l.Leaf? || r.Leaf?
    ensures Climb(c, if l.Leaf? then r else l).InOrder() == Preceding(c, l) + Following(c, r)
  {
    if l.Leaf? {
      ClimbInOrder(c, r);
    } else {
      ClimbInOrder(c, l);
    }
  }

  lemma EasyNodes<N>(c: Path<N>, l: Tree<N>, x: N, r: Tree<N>)
    requires (l.Leaf? || r.Leaf?) && c.Plug(Br(l, x, r)).Distinct()
    ensures var t' := Climb(c, if l.Leaf? then r else l);
            t'.Distinct() && t'.Nodes() == c.Plug(Br(l, x, r)).Nodes() - {x}
  {
    var t := Br(l, x, r);
    var sub := if l.Leaf? then r else l;
    PlugNodes(c, t);
    assert t.Distinct() && t.Nodes() == sub.Nodes() + {x} && x !in sub.Nodes();
    ClimbNodes(c, sub);
  }

  lemma EasyBalanced<N>(c: Path<N>, l: Tree<N>, x: N, r: Tree<N>)
    requires (l.Leaf? || r.Leaf?) && c.Plug(Br(l, x, r)).Balanced()
    ensures Climb(c, if l.Leaf? then r else l).Balanced()
  {
    PlugBalanced(c, Br(l, x, r));
    ClimbBalanced(c, if l.Leaf? then r else l, Br(l, x, r).Height());
  }

  /** Putting a new node in the place of another changes nothing else. */
  lemma Exchange<N>(c: Path<N>, l: Tree<N>, x: N, y: N, r: Tree<N>)
    requires c.Plug(Br(l, x, r)).Distinct() && c.Plug(Br(l, x, r)).Balanced()
    requires y !in c.Plug(Br(l, x, r)).Nodes()
    ensures var t' := c.Plug(Br(l, y, r));
            && t'.Distinct() && t'.Balanced()
            && t'.Nodes() == c.Plug(Br(l, x, r)).Nodes() - {x} + {y}
  {
    hide Path.Plug, Tree.Distinct, Tree.Nodes, Path.BalancedAt;
    ExchangeNodes(c, l, x, y, r);
    PlugBalanced(c, Br(l, x, r));
    PlugRebalanced(c, Br(l, y, r));
  }

  lemma ExchangeNodes<N>(c: Path<N>, l: Tree<N>, x: N, y: N, r: Tree<N>)
    requires c.Plug(Br(l, x, r)).Distinct() && y !in c.Plug(Br(l, x, r)).Nodes()
    ensures var t' := c.Plug(Br(l, y, r));
            t'.Distinct() && t'.Nodes() == c.Plug(Br(l, x, r)).Nodes() - {x} + {y}
  {
    PlugNodes(c, Br(l, x, r));
    assert Br(l, x, r).Distinct() && Br(l, x, r).Nodes() == l.Nodes() + {x} + r.Nodes();
    assert Br(l, y, r).Nodes() == l.Nodes() + {y} + r.Nodes();
    PlugNodes(c, Br(l, y, r));
  }

  /** Taking the successor `v` of `x` out and then putting it in the place of `x` is taking `x` out. */
  lemma ExchangeOrder<N>(p: seq<N>, x: N, f: seq<N>, v: N, q: seq<N>, p1: seq<N>, q1: seq<N>)
    requires p + [x] + f == p + [x] + [v] + q
    requires p + [x] + q == p1 + [x] + q1
    requires x !in p && x !in p1
    ensures p1 + [v] + q1 == p + f
  {
    SplitOnce(p, x, q, p1, q1);
    assert p + [x] + [v] + q == p + [x] + ([v] + q);
    SplitOnce(p, x, f, p, [v] + q);
  }

  lemma SingleNode<N>(x: N)
    ensures var t: Tree<N> := Br(Leaf, x, Leaf);
            t.InOrder() == [x] && t.Nodes() == {x} && t.Distinct() && t.Balanced() && t.Height() == 1
  {
    var e: Tree<N> := Leaf;
    assert e.InOrder() == [] && e.Nodes() == {} && e.Distinct() && e.Balanced() && e.Height() == 0;
  }

  // ---------- how tall a balanced tree can be ----------

  function Fib(n: nat): nat {
    if n < 2 then n else Fib(n - 2) + Fib(n - 1)
  }

  lemma {:induction false} FibMonotone(a: nat, b: nat)
    requires a <= b
    ensures Fib(a) <= Fib(b)
    decreases b - a
  {
    if a < b { FibMonotone(a + 1, b); }
  }

  /** A balanced tree of height h has at least Fib(h + 2) - 1 nodes. */
  lemma {:induction false} FibonacciBound<N>(t: Tree<N>)
    requires t.Balanced()
    ensures t.Size() + 1 >= Fib(t.Height() + 2)
  {
    if t.Br? {
      FibonacciBound(t.l);
      FibonacciBound(t.r);
      var h := t.Height();
      var low := if t.l.Height() < t.r.Height() then t.l else t.r;
      FibMonotone(h, low.Height() + 2);
      assert Fib(h + 2) == Fib(h) + Fib(h + 1);
    }
  }
}
