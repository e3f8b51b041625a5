/** Splay trees: include/cat/splay.h. */
module Splay {
  import opened LinkedTree
  import opened Powers
  import opened TreeOrder

  // ----- one round of st_splay, on trees -----

  /** The tree and the place after one round: the root of `t` rises by one level below the root, else by two. */
  function Rise(t: Tree, z: Path): (Tree, Path)
    requires t.Branch? && z.Step?
  {
    var d, o := z.side, Opposite(z.side);
    var n, m, p, mp, c := t.node, t.mark, z.node, z.mark, z.sibling;
    if z.up.Top? then
      (Mk(d, Near(d, t), n, m, Mk(d, Far(d, t), p, mp, c)), z.up)
    else
      var g, mg, e := z.up.node, z.up.mark, z.up.sibling;
      if z.up.side == d then
        (Mk(d, Near(d, t), n, m, Mk(d, Far(d, t), p, mp, Mk(d, c, g, mg, e))), z.up.up)
      else
        (Mk(o, Mk(o, c, p, mp, Near(o, t)), n, m, Mk(o, Far(o, t), g, mg, e)), z.up.up)
  }

  lemma RiseInorder(t: Tree, z: Path)
    requires t.Branch? && z.Step? && Sided(z)
    ensures var (u, y) := Rise(t, z); Inorder(Zip(u, y)) == Inorder(Zip(t, z))
  {
    hide Inorder;
    var (u, y) := Rise(t, z);
    var d, n, m, p, mp, c := z.side, t.node, t.mark, z.node, z.mark, z.sibling;
    var low := Mk(d, t, p, mp, c);
    if z.up.Top? {
      SameInorder(d, Near(d, t), n, m, Far(d, t), p, mp, c);
    } else {
      var e, g, mg, f := z.up.side, z.up.node, z.up.mark, z.up.sibling;
      ZipInorder(u, y);
      ZipInorder(Mk(e, low, g, mg, f), y);
      if d == e {
        var a, b := Near(d, t), Far(d, t);
        SameInorder(d, t, p, mp, c, g, mg, f);
        SameInorder(d, a, n, m, b, p, mp, Mk(d, c, g, mg, f));
      } else {
        var a, b := Near(e, t), Far(e, t);
        SameInorder(e, c, p, mp, a, n, m, b);
        MkInorder(e, low, Mk(e, Mk(e, c, p, mp, a), n, m, b), g, mg, f, f);
        SameInorder(e, Mk(e, c, p, mp, a), n, m, b, g, mg, f);
      }
    }
  }

  // ----- the potential -----

  function Size(t: Tree): nat {
    if t.Leaf? then 0 else Size(t.left) + 1 + Size(t.right)
  }

  lemma {:induction false} LogMonotone(a: nat, b: nat)
    requires 0 < a <= b
    ensures Log2(a) <= Log2(b)
  {
    if 1 < a { LogMonotone(a / 2, b / 2); }
  }

  /** Two trees of the same rank make one of a higher rank. */
  lemma {:induction false} LogSum(a: nat, b: nat)
    requires 0 < a && 0 < b && Log2(a) == Log2(b)
    ensures Log2(a) < Log2(a + b)
  {
    if a == 1 || b == 1 {
      assert a == b == 1;
    } else {
      LogSum(a / 2, b / 2);
      LogMonotone(a / 2 + b / 2, (a + b) / 2);
    }
  }

  function Potential(t: Tree): nat {
    if t.Leaf? then 0 else Log2(Size(t)) + Potential(t.left) + Potential(t.right)
  }

  /** The potential of the nodes above a place whose subtree has `k` nodes, with that of their other subtrees. */
  function PathPotential(z: Path, k: nat): nat {
    if z.Top? then 0 else
      var up := k + 1 + Size(z.sibling);
      Log2(up) + Potential(z.sibling) + PathPotential(z.up, up)
  }

  lemma {:induction false} ZipPotential(t: Tree, z: Path)
    ensures Potential(Zip(t, z)) == Potential(t) + PathPotential(z, Size(t))
    decreases z
  {
    if z.Step? {
      ZipPotential(Mk(z.side, t, z.node, z.mark, z.sibling), z.up);
    }
  }

  lemma SizeMk(d: Dir, near: Tree, n: Node, m: int, far: Tree)
    ensures Size(Mk(d, near, n, m, far)) == Size(near) + 1 + Size(far)
    ensures Potential(Mk(d, near, n, m, far)) == Log2(Size(near) + 1 + Size(far)) + Potential(near) + Potential(far)
  {
  }

  /** Of two parts of a tree that leave a node over, not both have the rank of the whole. */
  lemma NotBoth(a: nat, b: nat, whole: nat)
    requires 0 < a && 0 < b && a + b < whole
    ensures Log2(a) + Log2(b) < 2 * Log2(whole)
  {
    LogMonotone(a, whole);
    LogMonotone(b, whole);
    if Log2(a) == Log2(b) {
      LogSum(a, b);
      LogMonotone(a + b, whole);
    }
  }

  /** What the potential of `u` gains over that of `w`, of the same size, against the rank that `x` gains. */
  predicate Paid(x: Tree, w: Tree, u: Tree, extra: nat) {
    && 0 < Size(x) < Size(u) == Size(w)
    && 1 + Potential(u) + 3 * Log2(Size(x)) <= Potential(w) + 3 * Log2(Size(u)) + extra
  }

  lemma ZigCost(d: Dir, a: Tree, n: Node, m: int, b: Tree, p: Node, mp: int, c: Tree)
    ensures Paid(Mk(d, a, n, m, b), Mk(d, Mk(d, a, n, m, b), p, mp, c), Mk(d, a, n, m, Mk(d, b, p, mp, c)), 1)
  {
    hide Mk, Log2, Potential, Size;
    var x := Mk(d, a, n, m, b);
    SizeMk(d, a, n, m, b);
    SizeMk(d, x, p, mp, c);
    SizeMk(d, b, p, mp, c);
    SizeMk(d, a, n, m, Mk(d, b, p, mp, c));
    LogMonotone(Size(b) + 1 + Size(c), Size(x) + 1 + Size(c));
    LogMonotone(Size(x), Size(x) + 1 + Size(c));
  }

  lemma ZigZigCost(d: Dir, a: Tree, n: Node, m: int, b: Tree, p: Node, mp: int, c: Tree, g: Node, mg: int, f: Tree)
    ensures Paid(Mk(d, a, n, m, b), Mk(d, Mk(d, Mk(d, a, n, m, b), p, mp, c), g, mg, f),
                 Mk(d, a, n, m, Mk(d, b, p, mp, Mk(d, c, g, mg, f))), 0)
  {
    hide Mk, Log2, Potential, Size;
    var x := Mk(d, a, n, m, b);
    var low := Mk(d, x, p, mp, c);
    SizeMk(d, a, n, m, b);
    SizeMk(d, x, p, mp, c);
    SizeMk(d, low, g, mg, f);
    var g2 := Mk(d, c, g, mg, f);
    var p2 := Mk(d, b, p, mp, g2);
    SizeMk(d, c, g, mg, f);
    SizeMk(d, b, p, mp, g2);
    SizeMk(d, a, n, m, p2);
    DoubleCost(Size(x), Size(low), Size(g2), Size(p2), Size(low) + 1 + Size(f));
  }

  lemma ZigZagCost(e: Dir, c: Tree, p: Node, mp: int, a: Tree, n: Node, m: int, b: Tree, g: Node, mg: int, f: Tree)
    ensures Paid(Mk(e, a, n, m, b), Mk(e, Mk(e, c, p, mp, Mk(e, a, n, m, b)), g, mg, f),
                 Mk(e, Mk(e, c, p, mp, a), n, m, Mk(e, b, g, mg, f)), 0)
  {
    hide Mk, Log2, Potential, Size;
    var x := Mk(e, a, n, m, b);
    var low := Mk(e, c, p, mp, x);
    SizeMk(e, a, n, m, b);
    SizeMk(e, c, p, mp, x);
    SizeMk(e, low, g, mg, f);
    var p2 := Mk(e, c, p, mp, a);
    var g2 := Mk(e, b, g, mg, f);
    SizeMk(e, c, p, mp, a);
    SizeMk(e, b, g, mg, f);
    SizeMk(e, p2, n, m, g2);
    DoubleCost2(Size(x), Size(low), Size(p2), Size(g2), Size(low) + 1 + Size(f));
  }

  /** The amortised cost of one round; only the last one can be a single rotation, and pays one more. */
  lemma RiseCost(t: Tree, z: Path)
    requires t.Branch? && z.Step? && Sided(z)
    ensures var (u, y) := Rise(t, z);
            && u.Branch? && u.node == t.node && Sided(y) && Depth(z) == Depth(y) + (if z.up.Top? then 1 else 2)
            && 0 < Size(t) && 0 < Size(u)
            && 1 + Potential(Zip(u, y)) + 3 * Log2(Size(t))
               <= Potential(Zip(t, z)) + 3 * Log2(Size(u)) + (if z.up.Top? then 1 else 0)
  {
    hide Mk, Log2, Potential, PathPotential, Size;
    var (u, y) := Rise(t, z);
    var d, n, m, p, mp, c := z.side, t.node, t.mark, z.node, z.mark, z.sibling;
    var low := Mk(d, t, p, mp, c);
    MkSides(d, t);
    if z.up.Top? {
      ParentOf(d, Near(d, t), n, m, Mk(d, Far(d, t), p, mp, c));
      ZigCost(d, Near(d, t), n, m, Far(d, t), p, mp, c);
    } else {
      var e, g, mg, f := z.up.side, z.up.node, z.up.mark, z.up.sibling;
      ZipPotential(u, y);
      ZipPotential(Mk(e, low, g, mg, f), y);
      if d == e {
        ParentOf(d, Near(d, t), n, m, Mk(d, Far(d, t), p, mp, Mk(d, c, g, mg, f)));
        ZigZigCost(d, Near(d, t), n, m, Far(d, t), p, mp, c, g, mg, f);
      } else {
        MkSides(e, t);
        MkBack(e, c, p, mp, t);
        ParentOf(e, Mk(e, c, p, mp, Near(e, t)), n, m, Mk(e, Far(e, t), g, mg, f));
        ZigZagCost(e, c, p, mp, Near(e, t), n, m, Far(e, t), g, mg, f);
      }
    }
  }

  /** Ranks of a double rotation to the same side: `x`, `p` before, `g`, `p2` after, `whole` at the top both times. */
  lemma DoubleCost(x: nat, p: nat, g: nat, p2: nat, whole: nat)
    requires 0 < x < p < whole && 0 < g < p2 < whole && x + g < whole
    ensures 1 + Log2(p2) + Log2(g) + 3 * Log2(x) <= Log2(x) + Log2(p) + 3 * Log2(whole)
  {
    hide Log2;
    LogMonotone(x, p);
    LogMonotone(p, whole);
    LogMonotone(g, whole);
    LogMonotone(p2, whole);
    NotBoth(x, g, whole);
  }

  lemma DoubleCost2(x: nat, p: nat, p2: nat, g: nat, whole: nat)
    requires 0 < x < p < whole && 0 < g < whole && 0 < p2 < whole && p2 + g < whole
    ensures 1 + Log2(p2) + Log2(g) + 3 * Log2(x) <= Log2(x) + Log2(p) + 3 * Log2(whole)
  {
    hide Log2;
    LogMonotone(x, p);
    LogMonotone(p, whole);
    NotBoth(p2, g, whole);
  }

  // ----- st_splay and the rotations -----

  predicate Climbs(t: Tree, z: Path) {
    t.Branch? && Sided(z)
  }

  /** st_rr or st_rl, st_zll or st_zrr, st_zlr or st_zrl: one round of the loop. */
  method RiseNode(n: Node, ghost s: set<Node>, ghost t: Tree, ghost z: Path)
    requires At(Snap(s), t, z) && Climbs(t, z) && t.node == n && z.Step?
    modifies s
    ensures var (u, y) := Rise(t, z); At(Snap(s), u, y)
  {
    hide At, Mk, FixCells, Snap;
    ghost var h := Snap(s);
    ghost var dn, m, p0, mp, c := z.side, t.mark, z.node, z.mark, z.sibling;
    ghost var o := Opposite(dn);
    ghost var near, far := Near(dn, t), Far(dn, t);
    assert Sided(z.up);
    MkSides(dn, t);
    MkBack(dn, near, n, m, far);
    DownAt(h, dn, t, p0, mp, c, z.up);
    MkBack(dn, t, p0, mp, c);
    Fields(s, n, dn, near, m, far, z);
    Fields(s, p0, dn, t, mp, c, z.up);
    var p := n.par;
    if p.pdir == P {
      Rotate(p, Opposite(n.pdir), s, c, mp, far, n, m, near, z.up);
      MkBack(o, c, p, mp, far);
      MkBack(o, Mk(o, c, p, mp, far), n, m, near);
    } else {
      ghost var e, g0, mg, f, y := z.up.side, z.up.node, z.up.mark, z.up.sibling, z.up.up;
      ghost var low := Mk(dn, t, p0, mp, c);
      DownAt(h, e, low, g0, mg, f, y);
      MkBack(e, low, g0, mg, f);
      Fields(s, g0, e, low, mg, f, y);
      if n.pdir == p.pdir {
        ZigZigAt(h, o, f, g0, mg, c, p0, mp, far, n, m, near, y);
        ZigZig(n, n.pdir, s, p0, g0, Root(far), Root(c), y.Holder(), y.Side());
        MkBack(o, f, g0, mg, c);
        MkBack(o, Mk(o, f, g0, mg, c), p0, mp, far);
        MkBack(o, Mk(o, Mk(o, f, g0, mg, c), p0, mp, far), n, m, near);
      } else {
        ZigZagAt(h, e, c, p0, mp, far, n, m, near, g0, mg, f, y);
        ZigZag(n, p.pdir, s, p0, g0, Root(far), Root(near), y.Holder(), y.Side());
      }
    }
  }

  /** st_zrr for `d == L`, st_zll for `d == R`. */
  method ZigZig(n: Node, d: Dir, ghost s: set<Node>,
      ghost p0: Node, ghost g0: Node, ghost b: Node?, ghost c: Node?, ghost holder: Node, ghost side: Dir)
    requires d != P && Joined(s, n, p0, g0, b, c, holder, side)
    requires p0.Child(Opposite(d)) == c && n.Child(Opposite(d)) == b
    modifies s
    ensures var k := FixCells(FixCells(old(Snap(s)), g0, c, d), p0, b, d);
            Snap(s) == FixCells(FixCells(FixCells(k, holder, n, side), n, p0, Opposite(d)), p0, g0, Opposite(d))
  {
    var p := n.par;
    var gp := p.par;
    Fix(gp, p.Child(Opposite(d)), d, s);
    assert gp.par == holder && gp.pdir == side && n.par == p;
    Fix(p, n.Child(Opposite(d)), d, s);
    assert gp.par == holder && gp.pdir == side;
    Fix(gp.par, n, gp.pdir, s);
    Fix(n, p, Opposite(d), s);
    Fix(p, gp, Opposite(d), s);
  }

  /** st_zlr for `d == L`, st_zrl for `d == R`. */
  method ZigZag(n: Node, d: Dir, ghost s: set<Node>,
      ghost p0: Node, ghost g0: Node, ghost b: Node?, ghost c: Node?, ghost holder: Node, ghost side: Dir)
    requires d != P && Joined(s, n, p0, g0, b, c, holder, side)
    requires n.Child(Opposite(d)) == c && n.Child(d) == b
    modifies s
    ensures var k := FixCells(FixCells(old(Snap(s)), g0, c, d), p0, b, Opposite(d));
            Snap(s) == FixCells(FixCells(FixCells(k, holder, n, side), n, p0, d), n, g0, Opposite(d))
  {
    var p := n.par;
    var gp := p.par;
    Fix(gp, n.Child(Opposite(d)), d, s);
    Fix(p, n.Child(d), Opposite(d), s);
    Fix(gp.par, n, gp.pdir, s);
    Fix(n, p, d, s);
    Fix(n, gp, Opposite(d), s);
  }

  /** `n`, its parent and grandparent, what they hang on, and the two subtrees that move. */
  ghost predicate Joined(s: set<Node>, n: Node, p: Node, g: Node, b: Node?, c: Node?, holder: Node, side: Dir)
    reads s
  {
    && {n, p, g, holder} <= s && (b != null ==> b in s) && (c != null ==> c in s)
    && Different(g, p, n, holder, b, c)
    && n.par == p && p.par == g && g.par == holder && g.pdir == side
  }

  lemma {:induction false} InorderSize(t: Tree)
    ensures |Inorder(t)| == Size(t)
  {
    if t.Branch? {
      InorderSize(t.left);
      InorderSize(t.right);
    }
  }

  /** Trees with the same nodes from left to right have the same nodes. */
  lemma SameNodes(t: Tree, u: Tree)
    requires Inorder(t) == Inorder(u)
    ensures Nodes(t) == Nodes(u) && Size(t) == Size(u)
  {
    InorderNodes(t);
    InorderNodes(u);
    InorderSize(t);
    InorderSize(u);
  }

  /**
   * st_splay: `n` rises to the root and the order of the nodes stays. `rounds` counts the iterations, which are
   * one for every two levels; with the potential they cost no more than three times the rank `n` gains, plus one.
   */
  method StSplay(n: Node, ghost s: set<Node>, ghost t: Tree, ghost z: Path) returns (ghost u: Tree, ghost rounds: nat)
    requires At(Snap(s), t, z) && Climbs(t, z) && t.node == n
    modifies s
    ensures At(Snap(s), u, Top(Base(z))) && u.Branch? && u.node == n
    ensures Inorder(u) == Inorder(Zip(t, z)) && Depth(z) <= 2 * rounds
    ensures 0 < Size(t) && 0 < Size(u) && Size(u) == Size(Zip(t, z))
    ensures rounds + Potential(u) + 3 * Log2(Size(t)) <= Potential(Zip(t, z)) + 3 * Log2(Size(u)) + 1
  {
    hide At, Potential, Log2, Inorder;
    rounds := 0;
    ghost var y := z;
    u := t;
    ghost var paid := false;
    MkSides(L, u);
    Fields(s, n, L, Near(L, u), u.mark, Far(L, u), y);
    while n.pdir != P
      invariant At(Snap(s), u, y) && Climbs(u, y) && u.node == n && Base(y) == Base(z)
      invariant n.pdir == y.Side() && 0 < Size(t) && 0 < Size(u)
      invariant Inorder(Zip(u, y)) == Inorder(Zip(t, z)) && Depth(z) <= 2 * rounds + Depth(y)
      invariant paid ==> y.Top?
      invariant rounds + Potential(Zip(u, y)) + 3 * Log2(Size(t))
                <= Potential(Zip(t, z)) + 3 * Log2(Size(u)) + (if paid then 1 else 0)
      decreases Depth(y)
    {
      RiseInorder(u, y);
      RiseCost(u, y);
      RiseNode(n, s, u, y);
      paid := y.up.Top?;
      var (u2, y2) := Rise(u, y);
      u, y := u2, y2;
      rounds := rounds + 1;
      MkSides(L, u);
      Fields(s, n, L, Near(L, u), u.mark, Far(L, u), y);
    }
    SameNodes(u, Zip(t, z));
  }

  // ----- a run of calls -----

  /** One call: its cost, the potential before and after, and the size of the tree before. */
  datatype Call = Call(cost: nat, before: nat, after: nat, size: nat)

  function Bound(size: nat): nat {
    21 * Log2(size + 1) + 6
  }

  /** Logarithmic when the potential pays for the rest. */
  predicate Amortised(c: Call) {
    c.cost + 3 * c.after <= 3 * c.before + Bound(c.size)
  }

  datatype Op = Find(key: int) | Put(node: Node) | Drop(node: Node)

  /** What st_lkup, st_ins and st_rem make of the tree `t`, and what it costs. */
  ghost predicate Steps(op: Op, t: Tree, u: Tree, cost: nat) {
    && Sorted(Inorder(t)) && Sorted(Inorder(u)) && Amortised(Call(cost, Potential(t), Potential(u), Size(t)))
    && match op
       case Find(_) => Inorder(u) == Inorder(t)
       case Put(node) => Nodes(u) == (set n | n in Nodes(t) && n.key != node.key) + {node}
       case Drop(node) => node in Nodes(t) && Nodes(u) == Nodes(t) - {node}
  }

  function Keys(t: Tree): set<int> {
    set n | n in Nodes(t) :: n.key
  }

  /** What the run is to leave, as a set of keys. */
  function KeysAfter(ops: seq<Op>): set<int> {
    if ops == [] then {} else
      var before, op := KeysAfter(ops[..|ops| - 1]), ops[|ops| - 1];
      match op
      case Find(_) => before
      case Put(node) => before + {node.key}
      case Drop(node) => before - {node.key}
  }

  /** The trees of a run that begins with the empty one, and the costs of its calls. */
  ghost predicate Run(ops: seq<Op>, ts: seq<Tree>, costs: seq<nat>) {
    && |ts| == |ops| + 1 && |costs| == |ops| && ts[0] == Leaf
    && forall i {:trigger ops[i]} :: 0 <= i < |ops| ==> Steps(ops[i], ts[i], ts[i + 1], costs[i])
  }

  function Sum(costs: seq<nat>): nat {
    if costs == [] then 0 else Sum(costs[..|costs| - 1]) + costs[|costs| - 1]
  }

  lemma {:induction false} SortedKeys(s: seq<Node>)
    requires Sorted(s)
    ensures |Members(s)| == |s|
  {
    if s != [] {
      var q, last := s[..|s| - 1], s[|s| - 1];
      SortedKeys(q);
      assert s == q + [last];
      assert last !in q;
      MembersAre(q);
    }
  }

  function Members(s: seq<Node>): set<Node> {
    if s == [] then {} else Members(s[..|s| - 1]) + {s[|s| - 1]}
  }

  lemma {:induction false} MembersAre(s: seq<Node>)
    ensures Members(s) == set n | n in s
  {
    if s != [] {
      var q, last := s[..|s| - 1], s[|s| - 1];
      MembersAre(q);
      assert s == q + [last];
      assert (set n | n in q + [last]) == (set n | n in q) + {last};
    }
  }

  lemma KeyOnce(s: seq<Node>, m: Node, n: Node)
    requires Sorted(s) && m in s && n in s && m.key == n.key
    ensures m == n
  {
  }

  /** A node has a key of its own, and there are as many nodes as the size says. */
  lemma TreeKeys(t: Tree)
    requires Sorted(Inorder(t))
    ensures forall m, n :: m in Nodes(t) && n in Nodes(t) && m.key == n.key ==> m == n
    ensures |Nodes(t)| == Size(t)
  {
    hide Sorted;
    SortedKeys(Inorder(t));
    InorderNodes(t);
    InorderSize(t);
    MembersAre(Inorder(t));
    assert Nodes(t) == set n | n in Inorder(t);
    forall m, n | m in Nodes(t) && n in Nodes(t) && m.key == n.key
      ensures m == n
    {
      KeyOnce(Inorder(t), m, n);
    }
  }

  lemma {:induction false} Fewer(a: set<Node>, b: set<Node>)
    requires a <= b
    ensures |a| <= |b|
  {
    assert b == a + (b - a);
  }

  /** An insertion leaves the nodes with other keys, and the new one. */
  lemma PutNodes(t: Tree, u: Tree, r: Node?, node: Node)
    requires Sorted(Inorder(t))
    requires if r == null then Nodes(u) == Nodes(t) + {node} && forall n :: n in Nodes(t) ==> n.key != node.key
             else r in Nodes(t) && r.key == node.key && Nodes(u) == Nodes(t) - {r} + {node}
    ensures Nodes(u) == (set n | n in Nodes(t) && n.key != node.key) + {node}
  {
    hide Sorted, Nodes, Inorder, Size;
    TreeKeys(t);
    if r != null {
      assert Nodes(t) - {r} == set n | n in Nodes(t) && n.key != node.key;
    } else {
      assert Nodes(t) == set n | n in Nodes(t) && n.key != node.key;
    }
  }

  /** One call on the set of keys, and on the size. */
  lemma StepKeys(op: Op, t: Tree, u: Tree, cost: nat)
    requires Steps(op, t, u, cost)
    ensures Size(u) <= Size(t) + 1
    ensures Keys(u) == match op
                       case Find(_) => Keys(t)
                       case Put(node) => Keys(t) + {node.key}
                       case Drop(node) => Keys(t) - {node.key}
  {
    hide Sorted, Potential, Amortised, Inorder, Nodes, Size;
    TreeKeys(t);
    TreeKeys(u);
    match op {
      case Find(_) => SameNodes(t, u);
      case Put(node) =>
        var kept := set n | n in Nodes(t) && n.key != node.key;
        Fewer(kept, Nodes(t));
        assert Nodes(u) == kept + {node};
        forall k
          ensures k in Keys(u) <==> k in Keys(t) + {node.key}
        {
          if k in Keys(u) {
            var n :| n in Nodes(u) && n.key == k;
          }
          if k in Keys(t) && k != node.key {
            var n :| n in Nodes(t) && n.key == k;
            assert n in Nodes(u);
          }
        }
      case Drop(node) =>
        Fewer(Nodes(u), Nodes(t));
        forall k
          ensures k in Keys(u) <==> k in Keys(t) - {node.key}
        {
          if k in Keys(u) {
            var n :| n in Nodes(u) && n.key == k;
            assert n in Nodes(t) && n != node;
          }
          if k in Keys(t) && k != node.key {
            var n :| n in Nodes(t) && n.key == k;
            assert n in Nodes(u);
          }
        }
    }
  }

  /**
   * Any run of lookups, insertions and removals from the empty tree on leaves the set of keys it should, and a run of `m` of
   * them takes no more than `m` times a logarithm of `m` rounds of all loops together.
   */
  lemma {:induction false} RunCost(ops: seq<Op>, ts: seq<Tree>, costs: seq<nat>)
    requires Run(ops, ts, costs)
    ensures Keys(ts[|ops|]) == KeysAfter(ops) && Size(ts[|ops|]) <= |ops|
    ensures Sum(costs) + 3 * Potential(ts[|ops|]) <= |ops| * Bound(|ops|)
  {
    if ops == [] {
      assert Keys(Leaf) == {};
    } else {
      var k := |ops| - 1;
      var before, last := ops[..k], ops[k];
      assert Run(before, ts[..k + 1], costs[..k]) by {
        forall i | 0 <= i < k
          ensures Steps(before[i], ts[..k + 1][i], ts[..k + 1][i + 1], costs[..k][i])
        {
          assert before[i] == ops[i];
        }
      }
      RunCost(before, ts[..k + 1], costs[..k]);
      hide Steps, Potential, Log2, Size, Keys, Sum;
      assert Steps(ops[k], ts[k], ts[k + 1], costs[k]);
      StepKeys(ops[k], ts[k], ts[k + 1], costs[k]);
      StepCost(ops[k], ts[k], ts[k + 1], costs[k], k);
      SumLast(costs);
    }
  }

  lemma SumLast(costs: seq<nat>)
    requires costs != []
    ensures Sum(costs) == Sum(costs[..|costs| - 1]) + costs[|costs| - 1]
  {
  }

  lemma StepCost(op: Op, t: Tree, u: Tree, cost: nat, k: nat)
    requires Steps(op, t, u, cost) && Size(t) <= k
    ensures cost + 3 * Potential(u) <= 3 * Potential(t) + Bound(k + 1)
    ensures k * Bound(k) + Bound(k + 1) <= (k + 1) * Bound(k + 1)
  {
    hide Log2, Size, Potential;
    LogMonotone(Size(t) + 1, k + 2);
    LogMonotone(k + 1, k + 2);
    TimesOrder(k + 1, Bound(k), Bound(k + 1));
    if k > 0 { TimesOrder(k, Bound(k), Bound(k + 1)); }
    assert (k + 1) * Bound(k + 1) == k * Bound(k + 1) + Bound(k + 1);
  }

  // ----- which node comes to the root -----

  /** The last node that a search for `key` meets. */
  function LastMet(t: Tree, key: int): (n: Node)
    requires t.Branch?
    ensures n in Nodes(t)
  {
    if key < t.node.key && t.left.Branch? then LastMet(t.left, key)
    else if t.node.key < key && t.right.Branch? then LastMet(t.right, key)
    else t.node
  }

  lemma {:induction false} MetBelow(t: Tree, z: Path, key: int)
    requires t.Branch? && Sided(z) && Below(LeftOf(z), key) && Above(RightOf(z), key)
    ensures Zip(t, z).Branch? && LastMet(Zip(t, z), key) == LastMet(t, key)
    decreases z
  {
    if z.Step? {
      hide Inorder;
      var up := Mk(z.side, t, z.node, z.mark, z.sibling);
      assert z.node in LeftOf(z) || z.node in RightOf(z);
      assert Below(LeftOf(z.up), key) && Above(RightOf(z.up), key);
      MetBelow(up, z.up, key);
    }
  }

  /** The search that ends at an empty place has met the node above it last. */
  lemma MetAbove(z: Path, key: int)
    requires z.Step? && Sided(z) && Below(LeftOf(z), key) && Above(RightOf(z), key)
    ensures Zip(Leaf, z).Branch? && LastMet(Zip(Leaf, z), key) == z.node
  {
    hide Inorder;
    assert z.node in LeftOf(z) || z.node in RightOf(z);
    assert Below(LeftOf(z.up), key) && Above(RightOf(z.up), key);
    MetBelow(Mk(z.side, Leaf, z.node, z.mark, z.sibling), z.up, key);
  }

  /** It has the key if there is such a node; otherwise no key lies between its own and the one that was looked for. */
  lemma {:induction false} MetIsNext(t: Tree, key: int, n: Node)
    requires t.Branch? && Sorted(Inorder(t)) && n in Nodes(t)
    ensures var m := LastMet(t, key);
            && (n.key == key ==> n == m)
            && (m.key < n.key ==> key < n.key) && (n.key < m.key ==> n.key < key)
  {
    hide Sorted, Below, Above;
    SortedSplit(Inorder(t.left), t.node, Inorder(t.right));
    var side := if key < t.node.key then t.left else t.right;
    Inside(t, n);
    if key != t.node.key && side.Branch? {
      Inside(t, LastMet(side, key));
      if n in Nodes(side) { MetIsNext(side, key, n); }
    }
  }

  lemma Inside(t: Tree, n: Node)
    requires t.Branch? && Sorted(Inorder(t)) && n in Nodes(t)
    ensures n in Nodes(t.left) ==> n.key < t.node.key
    ensures n in Nodes(t.right) ==> t.node.key < n.key
    ensures n.key == t.node.key ==> n == t.node
  {
    SortedSplit(Inorder(t.left), t.node, Inorder(t.right));
    InorderNodes(t.left);
    InorderNodes(t.right);
  }

  /** A node is in one place of the order. */
  lemma RootPlace(t: Tree, k: nat)
    requires t.Branch? && Sorted(Inorder(t)) && k < |Inorder(t)| && Inorder(t)[k] == t.node
    ensures k == |Inorder(t.left)|
  {
    var s, j := Inorder(t), |Inorder(t.left)|;
    assert s[j] == t.node;
  }

  predicate LastIs(t: Tree, n: Node) {
    Inorder(t) != [] && Inorder(t)[|Inorder(t)| - 1] == n
  }

  lemma LastOf(u: Tree, t: Tree)
    requires u.Branch? && u.right == Leaf && Inorder(u) == Inorder(t)
    ensures LastIs(t, u.node)
  {
  }

  /** Without its root `node` a tree gets the node before it for its root, if there is one on either side. */
  lemma NewRoot(up: Tree, t: Tree, u: Tree, node: Node)
    requires up.Branch? && up.node == node && Inorder(up) == Inorder(t) && Sorted(Inorder(t))
    requires up.left.Branch? && up.right.Branch? ==> u.Branch? && LastIs(up.left, u.node)
    ensures forall k :: 0 < k < |Inorder(t)| - 1 && Inorder(t)[k] == node ==> u.Branch? && u.node == Inorder(t)[k - 1]
  {
    var s, l := Inorder(t), Inorder(up.left);
    assert s == l + [node] + Inorder(up.right);
    forall k | 0 < k < |s| - 1 && s[k] == node
      ensures u.Branch? && u.node == s[k - 1]
    {
      RootPlace(up, k);
      assert s[k - 1] == l[k - 1];
    }
  }

  // ----- the tree -----

  /** struct sptree. */
  class SplayTree {
    const root: Node
    ghost var nodes: set<Node>
    ghost var tree: Tree

    ghost predicate Valid()
      reads this, nodes
    {
      nodes == Nodes(tree) + {root} && At(Snap(nodes), tree, Top(root)) && Sorted(Inorder(tree))
    }

    /** st_init */
    constructor ()
      ensures Valid() && tree == Leaf && fresh(nodes)
    {
      var r := new Node(0);
      root := r;
      tree := Leaf;
      nodes := {r};
    }

    /** st_lkup. In this and the next two, `cost` counts the rounds of every loop. */
    method Lookup(key: int) returns (r: Node?, ghost cost: nat)
      requires Valid()
      modifies this, nodes
      ensures Valid() && nodes == old(nodes) && Inorder(tree) == old(Inorder(tree))
      ensures r != null <==> exists n :: n in Nodes(tree) && n.key == key
      ensures r != null ==> r in Nodes(tree) && r.key == key
      ensures Steps(Find(key), old(tree), tree, cost)
      ensures old(tree) == Leaf ==> tree == Leaf
      ensures old(tree).Branch? ==> tree.Branch? && tree.node == LastMet(old(tree), key)
      ensures r != null ==> tree.Branch? && tree.node == r
    {
      hide At, Potential, Log2, Sorted, Inorder, Below, Above, Size;
      ghost var t := tree;
      var n, dir, found, sub, z, steps := FindLoc(root, key, nodes, tree);
      cost := steps;
      InZip(sub, z);
      PlaceOfHolder(Snap(nodes), sub, z);
      if !found {
        KeyAbsent(z, key);
      }
      if n == root {
        return null, cost;
      }
      if found { MetBelow(sub, z, key); } else { MetAbove(z, key); }
      ghost var place := if found then (sub, z) else (Mk(z.side, sub, z.node, z.mark, z.sibling), z.up);
      ghost var rounds;
      tree, rounds := StSplay(n, nodes, place.0, place.1);
      cost := cost + rounds;
      SameNodes(tree, t);
      LogMonotone(Size(tree), Size(tree) + 1);
      r := if found then n else null;
    }

    /** st_ins: a node with a key of its own becomes the root, or takes the place of the one with its key. */
    method Insert(node: Node) returns (r: Node?, ghost cost: nat)
      requires Valid() && node !in nodes && node.left == null && node.right == null
      modifies this, nodes, node
      ensures Valid() && nodes == old(nodes) + {node} - {r} && tree.Branch? && tree.node == node
      ensures r == null ==> Nodes(tree) == old(Nodes(tree)) + {node} && forall n :: n in old(Nodes(tree)) ==> n.key != node.key
      ensures r != null ==>
        r in old(Nodes(tree)) && r.key == node.key && Nodes(tree) == old(Nodes(tree)) - {r} + {node}
        && r.left == null && r.right == null && r.par == null
      ensures Steps(Put(node), old(tree), tree, cost)
    {
      hide At, Potential, Log2, Sorted, Inorder, Below, Above, Size;
      ghost var h := Snap(nodes);
      var n, dir, found, sub, z, steps := FindLoc(root, node.key, nodes, tree);
      cost := steps;
      PlaceOfHolder(h, sub, z);
      InZip(sub, z);
      ghost var rounds := 0;
      if n == root {
        KeyAbsent(z, node.key);
        Hang(root, node, P, z);
        r := null;
      } else if found {
        rounds := Replace(n, node, sub, z);
        LogMonotone(Size(tree), Size(tree) + 1);
        r := n;
      } else {
        KeyAbsent(z, node.key);
        rounds := HangRoot(n, node, dir, z);
        r := null;
      }
      cost := cost + rounds;
      PutNodes(old(tree), tree, r, node);
    }

    /** A node hung in its place, and then brought to the root. */
    method HangRoot(n: Node, node: Node, dir: Dir, ghost z: Path) returns (ghost rounds: nat)
      requires Valid() && node !in nodes && node.left == null && node.right == null && z.Step? && Sided(z)
      requires At(Snap(nodes), Leaf, z) && Zip(Leaf, z) == tree && Base(z) == root && n == z.Holder() && dir == z.Side()
      requires Below(LeftOf(z), node.key) && Above(RightOf(z), node.key)
      modifies this, nodes, node
      ensures Valid() && nodes == old(nodes) + {node} && Nodes(tree) == old(Nodes(tree)) + {node} && tree.Branch? && tree.node == node
      ensures Depth(z) <= 2 * rounds && 0 < Size(tree) == old(Size(tree)) + 1
      ensures rounds + Potential(tree) <= old(Potential(tree)) + 4 * Log2(Size(tree)) + 1
    {
      hide At, Potential, Log2, Sorted, Inorder, Below, Above, Size, Nodes;
      Hang(n, node, dir, z);
      ghost var hung := tree;
      LonePotential(node, node.mark);
      tree, rounds := StSplay(node, nodes, Branch(Leaf, node, node.mark, Leaf), z);
      SameNodes(tree, hung);
    }

    method Hang(n: Node, node: Node, dir: Dir, ghost z: Path)
      requires Valid() && node !in nodes && node.left == null && node.right == null
      requires At(Snap(nodes), Leaf, z) && Zip(Leaf, z) == tree && Base(z) == root && n == z.Holder() && dir == z.Side()
      requires Below(LeftOf(z), node.key) && Above(RightOf(z), node.key)
      modifies this, nodes, node
      ensures Valid() && nodes == old(nodes) + {node} && Nodes(tree) == old(Nodes(tree)) + {node}
      ensures var leaf := Branch(Leaf, node, node.mark, Leaf); At(Snap(nodes), leaf, z) && Zip(leaf, z) == tree
      ensures Size(tree) == old(Size(tree)) + 1 && Potential(tree) <= old(Potential(tree)) + Log2(Size(tree))
    {
      hide At, Potential, Log2, Sorted, Inorder, Below, Above, Zip, Nodes, Size;
      ghost var s := nodes + {node};
      NodesAt(Snap(nodes), Leaf, z);
      SameAt(Snap(nodes), Snap(s), Leaf, z);
      HangAll(Snap(s), node, z);
      LeafPotential(node, node.mark, z);
      Fix(n, node, dir, s);
      tree, nodes := Zip(Branch(Leaf, node, node.mark, Leaf), z), s;
    }

    method Replace(n: Node, node: Node, ghost sub: Tree, ghost z: Path) returns (ghost rounds: nat)
      requires Valid() && node !in nodes && n != root && node.key == n.key
      requires At(Snap(nodes), sub, z) && Zip(sub, z) == tree && Base(z) == root && Climbs(sub, z) && sub.node == n
      modifies this, nodes, node
      ensures Valid() && nodes == old(nodes) + {node} - {n} && tree.Branch? && tree.node == node
      ensures Nodes(tree) == old(Nodes(tree)) + {node} - {n}
      ensures n.left == null && n.right == null && n.par == null && n.pdir == P
      ensures Depth(z) <= 2 * rounds
      ensures 0 < Size(tree) == old(Size(tree))
      ensures rounds + Potential(tree) <= old(Potential(tree)) + 3 * Log2(Size(tree)) + 1
    {
      hide At, Potential, Log2, Sorted, Inorder, Below, Above;
      ghost var t := tree;
      tree, rounds := StSplay(n, nodes, sub, z);
      SameNodes(tree, t);
      ReplaceRoot(n, node);
    }

    /** st_rem */
    method Remove(node: Node) returns (ghost cost: nat)
      requires Valid() && node in Nodes(tree)
      modifies this, nodes
      ensures Valid() && nodes == old(nodes) - {node} && Nodes(tree) == old(Nodes(tree)) - {node}
      ensures node.left == null && node.right == null && node.par == null
      ensures Steps(Drop(node), old(tree), tree, cost)
      ensures forall k :: 0 < k < |old(Inorder(tree))| - 1 && old(Inorder(tree))[k] == node ==>
        tree.Branch? && tree.node == old(Inorder(tree))[k - 1]
    {
      hide At, Potential, Log2, Sorted, Inorder, Below, Above, Nodes, Size, Snap;
      ghost var t := tree;
      ghost var sub, z := PlaceOf(Snap(nodes), tree, Top(root), node);
      PlaceOfHolder(Snap(nodes), sub, z);
      ghost var rounds;
      tree, rounds := StSplay(node, nodes, sub, z);
      cost := rounds;
      ghost var up := tree;
      SameNodes(tree, t);
      LogMonotone(Size(tree), Size(tree) + 1);
      Fields(nodes, node, L, tree.left, tree.mark, tree.right, Top(root));
      if node.right == null {
        Promote(node.left, tree.left);
      } else if node.left == null {
        Promote(node.right, tree.right);
      } else {
        ghost var steps;
        steps, rounds := JoinSides(node);
        LogMonotone(Size(tree), Size(t) + 1);
        cost := cost + steps + rounds;
      }
      NewRoot(up, t, tree, node);
      node.Clear();
    }

    /** One side of the root becomes the tree. */
    method Promote(c: Node?, ghost side: Tree)
      requires Valid() && tree.Branch? && c == Root(side)
      requires (side == tree.left && tree.right == Leaf) || (side == tree.right && tree.left == Leaf)
      modifies this, nodes
      ensures Valid() && nodes == old(nodes) - {old(tree).node} && tree == side
      ensures Nodes(tree) == old(Nodes(tree)) - {old(tree).node} && Potential(tree) <= old(Potential(tree))
    {
      hide At, Sorted, Inorder, Nodes, Snap, FixCells;
      SnapAll(nodes);
      PromoteAt(Snap(nodes), tree, root);
      NodesAt(Snap(nodes), tree, Top(root));
      WithoutRoot(tree);
      RootIn(side);
      Fix(root, c, P, nodes);
      SnapAt(nodes, nodes - {tree.node}, side, root);
      nodes := nodes - {tree.node};
      tree := side;
    }

    /** The node with the last key below `top`, by its right links; the tree around it is taken to end at `root`. */
    method LastNode(top: Node, ghost t: Tree) returns (rep: Node, ghost cur: Tree, ghost z: Path)
      requires t.Branch? && t.node == top && Loose(Snap(nodes), t)
      ensures cur.Branch? && cur.node == rep && cur.right == Leaf && rep in nodes
      ensures Zip(cur, z) == t && RightOf(z) == [] && Sided(z) && Base(z) == root
    {
      hide Snap, Linked;
      ghost var h := Snap(nodes);
      SnapAll(nodes);
      rep, cur, z := top, t, Top(root);
      LooseRight(h, cur);
      while rep.right != null
        invariant Loose(h, cur) && cur.node == rep && h == Snap(nodes) && rep in nodes && rep.right == Root(cur.right)
        invariant Zip(cur, z) == t && RightOf(z) == [] && Sided(z) && Base(z) == root
        decreases cur
      {
        LooseRight(h, cur);
        rep := rep.right;
        z := Step(z, R, cur.node, cur.mark, cur.left);
        cur := cur.right;
        LooseRight(h, cur);
      }
    }

    /** The left side of the root becomes the tree, and its last node comes to the root of it. */
    method RaiseLast(node: Node) returns (rep: Node, ghost l2: Tree, ghost steps: nat, ghost rounds: nat)
      requires Valid() && tree.Branch? && tree.left.Branch? && node == tree.node
      modifies nodes
      ensures At(Snap(nodes), l2, Top(root)) && l2.Branch? && l2.node == rep && l2.right == Leaf && rep in nodes
      ensures Inorder(l2) == Inorder(tree.left) && node.right == Root(tree.right)
      ensures Linked(Snap(nodes), tree.right, node, R, Root(tree.right))
      ensures steps <= 2 * rounds
      ensures 0 < Size(l2) && rounds + Potential(l2) <= Potential(tree.left) + 3 * Log2(Size(l2)) + 1
    {
      hide At, Sorted, Inorder, Nodes, Snap, FixCells, Potential, Size, Log2, Linked;
      ghost var t, l, h0 := tree, tree.left, Snap(nodes);
      SnapAll(nodes);
      PromoteAt(h0, t, root);
      NodesAt(h0, t, Top(root));
      WithoutRoot(t);
      SidesLoose(h0, t, Top(root));
      ghost var cur, zz;
      rep, cur, zz := LastNode(node.left, l);
      ghost var s := Nodes(l) + {root};
      RootIn(l);
      Fix(root, node.left, P, nodes);
      SnapAt(nodes, s, l, root);
      UnzipAt(Snap(s), cur, zz);
      steps := Depth(zz);
      l2, rounds := StSplay(rep, s, cur, zz);
      SameNodes(l2, l);
      SnapAt(s, nodes, l2, root);
      LastIsBare(cur, zz, l2);
      SnapAll(nodes);
      SameTree(h0, Snap(nodes), t.right, node, R, Root(t.right));
    }

    /** Both sides stay: the last node of the left one takes the right one. */
    method JoinSides(node: Node) returns (ghost steps: nat, ghost rounds: nat)
      requires Valid() && tree.Branch? && tree.left.Branch? && tree.right.Branch? && node == tree.node
      modifies this, nodes
      ensures Valid() && nodes == old(nodes) - {node}
      ensures Nodes(tree) == old(Nodes(tree)) - {node}
      ensures 0 < Size(tree) == old(Size(tree)) - 1 && steps <= 2 * rounds
      ensures rounds + Potential(tree) <= old(Potential(tree)) + 4 * Log2(Size(tree)) + 1
      ensures tree.Branch? && LastIs(old(tree).left, tree.node)
    {
      hide At, Sorted, Inorder, Nodes, Snap, FixCells, Potential, Size, Log2, Linked, LastIs;
      ghost var t := tree;
      NodesAt(Snap(nodes), t, Top(root));
      WithoutRoot(t);
      var rep;
      ghost var l2;
      rep, l2, steps, rounds := RaiseLast(node);
      SameNodes(l2, t.left);
      LastOf(l2, t.left);
      RootIn(t.right);
      GraftRight(Snap(nodes), l2, root, t.right, node);
      Fix(rep, node.right, R, nodes);
      tree := Branch(l2.left, rep, l2.mark, t.right);
      JoinPotential(t, l2, tree);
      SnapAt(nodes, nodes - {node}, tree, root);
      nodes := nodes - {node};
    }

    method ReplaceRoot(n: Node, node: Node)
      requires Valid() && node !in nodes && node.key == n.key && tree.Branch? && tree.node == n
      modifies this, nodes, node
      ensures Valid() && nodes == old(nodes) + {node} - {n} && tree.Branch? && tree.node == node
      ensures Nodes(tree) == old(Nodes(tree)) + {node} - {n}
      ensures n.left == null && n.right == null && n.par == null && n.pdir == P
      ensures Potential(tree) == old(Potential(tree)) && Size(tree) == old(Size(tree))
    {
      hide At, Sorted, Inorder, Nodes, FixCells, Potential, Size, Log2, Apart, Distinct, Snap;
      ghost var t, s := tree, nodes + {node};
      SnapAll(nodes);
      SnapAll(s);
      ghost var v := Branch(t.left, node, node.mark, t.right);
      NodesAt(Snap(nodes), t, Top(root));
      SnapAt(nodes, s, t, root);
      ReplaceAll(Snap(s), t, root, node);
      Fields(s, n, L, t.left, t.mark, t.right, Top(root));
      TakePlace(n, node, s);
      SnapAt(s, s - {n}, v, root);
      tree, nodes := v, s - {n};
      assert Valid();
      n.Clear();
    }
  }

  // ----- removal -----

  /** What is left of a tree without its root. */
  lemma WithoutRoot(t: Tree)
    requires t.Branch? && Distinct(t)
    ensures Nodes(t) - {t.node} == Nodes(t.left) + Nodes(t.right) && t.node in Nodes(t) && Nodes(Leaf) == {}
    ensures Sorted(Inorder(t)) ==> Sorted(Inorder(t.left)) && Sorted(Inorder(t.right))
    ensures Sorted(Inorder(t)) ==> Sorted(Inorder(t.left) + Inorder(t.right))
  {
    SortedSplit(Inorder(t.left), t.node, Inorder(t.right));
  }

  /** Either subtree takes the place of the whole at the top. */
  lemma PromoteAt(h: Cells, t: Tree, root: Node)
    requires At(h, t, Top(root)) && t.Branch?
    ensures root in h && t.node in h && h[t.node].left == Root(t.left) && h[t.node].right == Root(t.right)
    ensures At(FixCells(h, root, Root(t.left), P), t.left, Top(root))
    ensures At(FixCells(h, root, Root(t.right), P), t.right, Top(root))
  {
    HereAt(h, L, t.left, t.node, t.mark, t.right, Top(root));
    GraftAt(h, Top(root), t.left, t.node, L);
    GraftAt(h, Top(root), t.right, t.node, R);
  }

  /** The subtree hangs by its own links, whatever is above it. */
  ghost predicate Loose(h: Cells, t: Tree) {
    t.Branch? && t.node in h && Linked(h, t.left, t.node, L, h[t.node].left) && Linked(h, t.right, t.node, R, h[t.node].right)
  }

  lemma LooseRight(h: Cells, t: Tree)
    requires Loose(h, t)
    ensures h[t.node].right == Root(t.right) && (t.right.Branch? ==> t.right.node in h && Loose(h, t.right))
  {
  }

  lemma SidesLoose(h: Cells, t: Tree, z: Path)
    requires At(h, t, z) && t.Branch?
    ensures t.node in h && h[t.node].left == Root(t.left) && h[t.node].right == Root(t.right)
    ensures t.left.Branch? ==> Loose(h, t.left)
    ensures Linked(h, t.right, t.node, R, Root(t.right))
  {
    LinkedRoot(h, t.left, t.node, L, h[t.node].left);
    LinkedRoot(h, t.right, t.node, R, h[t.node].right);
  }

  /** A root without anything to its right takes a subtree there. */
  lemma GraftRight(h: Cells, t: Tree, root: Node, r: Tree, par0: Node)
    requires At(h, t, Top(root)) && t.Branch? && t.right == Leaf && Linked(h, r, par0, R, Root(r))
    requires Distinct(r) && Nodes(r) !! Nodes(t) && root !in Nodes(r)
    ensures t.node in h && At(FixCells(h, t.node, Root(r), R), Branch(t.left, t.node, t.mark, r), Top(root))
    ensures Nodes(Branch(t.left, t.node, t.mark, r)) == Nodes(t) + Nodes(r)
    ensures Inorder(Branch(t.left, t.node, t.mark, r)) == Inorder(t) + Inorder(r)
  {
    hide Linked;
    var z := Step(Top(root), R, t.node, t.mark, t.left);
    DownAt(h, R, Leaf, t.node, t.mark, t.left, Top(root));
    GraftAt(h, z, r, par0, R);
    DownAt(FixCells(h, t.node, Root(r), R), R, r, t.node, t.mark, t.left, Top(root));
  }

  lemma JoinPotential(t: Tree, l2: Tree, u: Tree)
    requires t.Branch? && l2.Branch? && l2.right == Leaf && u.Branch? && u.left == l2.left && u.right == t.right
    requires Size(l2) == Size(t.left)
    ensures 0 < Size(t.left) && 0 < Size(u) == Size(t) - 1
    ensures Potential(u) + Potential(t.left) + Log2(Size(l2)) <= Potential(l2) + Potential(t)
    ensures Log2(Size(l2)) <= Log2(Size(u))
  {
    LogMonotone(Size(u), Size(t));
    LogMonotone(Size(l2), Size(u));
  }

  /** The last node of a sorted tree has nothing to its right once it is the root. */
  lemma LastIsBare(t: Tree, z: Path, u: Tree)
    requires t.Branch? && t.right == Leaf && RightOf(z) == [] && u.Branch? && u.node == t.node
    requires Inorder(u) == Inorder(Zip(t, z)) && Sorted(Inorder(u))
    ensures u.right == Leaf
  {
    ZipInorder(t, z);
    SortedSplit(Inorder(u.left), u.node, Inorder(u.right));
    LastMember(Inorder(u.left) + [u.node], Inorder(u.right));
    InorderSize(u.right);
  }

  /** The whole of a replacement at the root: fields, order and nodes. */
  lemma ReplaceAll(h: Cells, t: Tree, root: Node, node: Node)
    requires At(h, t, Top(root)) && t.Branch? && node in h && node !in Nodes(t) && node != root && node.key == t.node.key
    requires Sorted(Inorder(t))
    ensures t.node in h && root in h && t.node != root && t.node != node
    ensures var k := FixCells(FixCells(h, node, Root(t.left), L), node, Root(t.right), R);
            var v := Branch(t.left, node, h[node].mark, t.right);
            && At(FixCells(k, root, node, P), v, Top(root)) && Sorted(Inorder(v))
            && Nodes(v) == Nodes(t) + {node} - {t.node} && Nodes(v) <= h.Keys
            && Potential(v) == Potential(t) && Size(v) == Size(t)
            && Root(t.left) != t.node && Root(t.left) != node && Root(t.right) != t.node && Root(t.right) != node
  {
    hide At, Sorted, Inorder, Nodes, FixCells, Distinct;
    NodesAt(h, t, Top(root));
    RootIn(t);
    ChildrenApart(t);
    ReplaceAt(h, t.left, t.node, t.mark, t.right, Top(root), node);
    ReplacedSorted(t.left, t.node, t.mark, node, h[node].mark, t.right);
  }

  /** How many nodes the whole tree has when the subtree at the place has `k`. */
  function Whole(z: Path, k: nat): nat {
    if z.Top? then k else Whole(z.up, k + 1 + Size(z.sibling))
  }

  lemma {:induction false} ZipSize(t: Tree, z: Path)
    ensures Size(Zip(t, z)) == Whole(z, Size(t))
    decreases z
  {
    if z.Step? { ZipSize(Mk(z.side, t, z.node, z.mark, z.sibling), z.up); }
  }

  lemma LonePotential(node: Node, m: int)
    ensures Size(Leaf) == 0 && Size(Branch(Leaf, node, m, Leaf)) == 1 && Log2(1) == 0
    ensures Potential(Leaf) == 0 && Potential(Branch(Leaf, node, m, Leaf)) == 0
  {
  }

  lemma LeafPotential(node: Node, m: int, z: Path)
    ensures var t := Zip(Branch(Leaf, node, m, Leaf), z);
            Size(t) == Size(Zip(Leaf, z)) + 1 && Potential(t) <= Potential(Zip(Leaf, z)) + Log2(Size(t))
  {
    hide Potential, Log2, Size, PathPotential;
    var leaf := Branch(Leaf, node, m, Leaf);
    LonePotential(node, m);
    ZipPotential(leaf, z);
    ZipPotential(Leaf, z);
    ZipSize(leaf, z);
    ZipSize(Leaf, z);
    PathGrows(z, 0);
  }

  /** A node with the same key in the place of another keeps the order. */
  lemma ReplacedSorted(l: Tree, n: Node, m: int, node: Node, m2: int, r: Tree)
    requires Sorted(Inorder(Branch(l, n, m, r))) && n.key == node.key
    requires Distinct(Branch(l, n, m, r)) && node !in Nodes(Branch(l, n, m, r))
    ensures Sorted(Inorder(Branch(l, node, m2, r)))
    ensures Nodes(Branch(l, node, m2, r)) == Nodes(Branch(l, n, m, r)) + {node} - {n}
  {
    hide Sorted;
    SortedSplit(Inorder(l), n, Inorder(r));
    SortedSplit(Inorder(l), node, Inorder(r));
  }

  /** One node more below a place raises the ranks above it by the rank of the whole tree at most. */
  lemma {:induction false} PathGrows(z: Path, k: nat)
    ensures 0 < Whole(z, k) + 1
    ensures PathPotential(z, k + 1) + Log2(k + 1) <= PathPotential(z, k) + Log2(Whole(z, k) + 1)
    ensures Whole(z, k + 1) == Whole(z, k) + 1
    decreases z
  {
    hide Log2, Size, Potential;
    if z.Step? {
      var up := k + 1 + Size(z.sibling);
      PathGrows(z.up, up);
      LogMonotone(k + 1, up);
    }
  }
}
