/** Red-black trees: include/cat/rbtree.h. The colour is the `mark` of a node. */
module RedBlack {
  import opened LinkedTree
  import opened Powers
  import opened TreeOrder

  const RED := 0
  const BLACK := 1

  /** The macro COL: an empty subtree counts as black. */
  function Col(t: Tree): int {
    if t.Leaf? then BLACK else t.mark
  }

  /** Black nodes on the way to the left end. */
  function Blacks(t: Tree): nat {
    if t.Leaf? then 0 else Blacks(t.left) + (if t.mark == BLACK then 1 else 0)
  }

  /** Equal numbers of black nodes on every way down, and no red node below a red one. */
  predicate RB(t: Tree) {
    t.Branch? ==>
      && (t.mark == RED || t.mark == BLACK) && RB(t.left) && RB(t.right) && Blacks(t.left) == Blacks(t.right)
      && (t.mark == RED ==> Col(t.left) == BLACK && Col(t.right) == BLACK)
  }

  /** The same for the rest of the tree around a place that wants a subtree with `k` black nodes on every way. */
  predicate RBPath(z: Path, k: nat) {
    z.Step? ==>
      && z.side != P && (z.mark == RED || z.mark == BLACK) && RB(z.sibling) && Blacks(z.sibling) == k
      && (z.mark == RED ==> Col(z.sibling) == BLACK && z.up.Step? && z.up.mark == BLACK)
      && RBPath(z.up, k + (if z.mark == BLACK then 1 else 0))
  }

  function Blacken(t: Tree): Tree {
    if t.Leaf? then t else t.(mark := BLACK)
  }

  // ----- what the invariant is good for: the tree is never deep -----

  lemma {:induction false} BlacksCount(t: Tree)
    requires RB(t)
    ensures Pow2(Blacks(t)) <= |Inorder(t)| + 1
    ensures Height(t) <= 2 * Blacks(t) + (if Col(t) == RED then 1 else 0)
  {
    if t.Branch? {
      BlacksCount(t.left);
      BlacksCount(t.right);
    }
  }

  /** Height at most 2 * log2(n + 1), without the logarithm. */
  lemma HeightBound(t: Tree)
    requires RB(t) && Col(t) == BLACK
    ensures Pow2((Height(t) + 1) / 2) <= |Inorder(t)| + 1
  {
    BlacksCount(t);
    Pow2Monotone((Height(t) + 1) / 2, Blacks(t));
  }

  // ----- places -----

  lemma RBMk(d: Dir, near: Tree, n: Node, m: int, far: Tree)
    ensures RB(Mk(d, near, n, m, far)) <==>
      && (m == RED || m == BLACK) && RB(near) && RB(far) && Blacks(near) == Blacks(far)
      && (m == RED ==> Col(near) == BLACK && Col(far) == BLACK)
    ensures Col(Mk(d, near, n, m, far)) == m
    ensures Blacks(near) == Blacks(far) ==> Blacks(Mk(d, near, n, m, far)) == Blacks(near) + (if m == BLACK then 1 else 0)
  {
  }

  lemma {:induction false} ZipRB(t: Tree, z: Path)
    requires RB(t) && RBPath(z, Blacks(t)) && (Col(t) == RED ==> z.Top? || z.mark == BLACK)
    ensures RB(Zip(t, z)) && (z.Step? ==> Col(Zip(t, z)) == BLACK)
    decreases z
  {
    if z.Step? {
      RBMk(z.side, t, z.node, z.mark, z.sibling);
      ZipRB(Mk(z.side, t, z.node, z.mark, z.sibling), z.up);
    }
  }

  lemma {:induction false} UnzipRB(t: Tree, z: Path)
    requires RB(Zip(t, z)) && Col(Zip(t, z)) == BLACK && Sided(z)
    ensures RB(t) && RBPath(z, Blacks(t)) && (Col(t) == RED ==> z.Step? && z.mark == BLACK)
    decreases z
  {
    if z.Step? {
      var up := Mk(z.side, t, z.node, z.mark, z.sibling);
      UnzipRB(up, z.up);
      RBMk(z.side, t, z.node, z.mark, z.sibling);
    }
  }

  // ----- insertion, on trees -----

  /** A red subtree below a red node with a red brother: all three change colour and the work moves up by two. */
  lemma RecolourRB(u: Tree, z: Path)
    requires RB(u) && Col(u) == RED && RBPath(z, Blacks(u)) && z.Step? && z.mark == RED && Col(z.up.sibling) == RED
    ensures var low := Mk(z.side, u, z.node, BLACK, z.sibling);
            var v := Mk(z.up.side, low, z.up.node, RED, Blacken(z.up.sibling));
            RB(v) && Col(v) == RED && RBPath(z.up.up, Blacks(v))
  {
  }

  /** With a black brother one or two rotations end it: the red subtree then hangs on a black node. */
  lemma OuterRB(u: Tree, z: Path)
    requires RB(u) && Col(u) == RED && RBPath(z, Blacks(u)) && z.Step? && z.mark == RED && Col(z.up.sibling) == BLACK
    ensures var d := z.side;
            RBPath(Step(z.up.up, d, z.node, BLACK, Mk(d, z.sibling, z.up.node, RED, z.up.sibling)), Blacks(u))
  {
  }

  /** The red subtree on the inner side: one rotation brings it to the outer side. */
  lemma InnerRB(e: Dir, a: Tree, n: Node, b: Tree, z: Path)
    requires e != P && z.Step? && z.mark == RED
    requires RB(Mk(e, a, n, RED, b)) && RBPath(z, Blacks(Mk(e, a, n, RED, b)))
    ensures var v := Mk(e, z.sibling, z.node, RED, a);
            RB(v) && Col(v) == RED && RBPath(Step(z.up, e, n, RED, b), Blacks(v))
  {
  }

  // ----- insertion, on the fields -----

  function PlainCol(n: Node?): int
    reads n
  {
    if n == null then BLACK else n.mark
  }

  /** The colours of the three nodes above a red one: `par` and its brother black, their parent red. */
  method Recolour(par: Node, unc: Node, gp: Node, ghost s: set<Node>, ghost u: Tree, ghost z: Path)
    requires At(Snap(s), u, z) && Sided(z) && z.Step? && z.up.Step? && z.up.sibling.Branch?
    requires par == z.node && gp == z.up.node && unc == z.up.sibling.node
    modifies s
    ensures At(Snap(s), Mk(z.up.side, Mk(z.side, u, par, BLACK, z.sibling), gp, RED, Blacken(z.up.sibling)), z.up.up)
  {
    hide At, Mk, Snap;
    ghost var d, e, y, b := z.side, z.up.side, z.up.up, z.up.sibling;
    ghost var low := Mk(d, u, par, BLACK, z.sibling);
    assert Sided(z.up);
    DownAt(Snap(s), d, u, par, z.mark, z.sibling, z.up);
    Paint(par, BLACK, s, d, u, z.mark, z.sibling, z.up);
    DownAt(Snap(s), e, low, gp, z.up.mark, b, y);
    MkBack(e, low, gp, z.up.mark, b);
    DownAt(Snap(s), Opposite(e), b, gp, z.up.mark, low, y);
    MkSides(L, b);
    Paint(unc, BLACK, s, L, Near(L, b), b.mark, Far(L, b), Step(y, Opposite(e), gp, z.up.mark, low));
    PaintedSides(L, b, BLACK);
    DownAt(Snap(s), Opposite(e), Blacken(b), gp, z.up.mark, low, y);
    MkBack(e, low, gp, z.up.mark, Blacken(b));
    Paint(gp, RED, s, e, low, z.up.mark, Blacken(b), y);
  }

  /** The end of an insertion: `par` black, its parent red and rotated away from it. */
  method TurnOuter(par: Node, gp: Node, d: Dir, ghost s: set<Node>, ghost u: Tree, ghost z: Path)
    requires At(Snap(s), u, z) && z.Step? && z.up.Step? && d == z.side == z.up.side != P
    requires par == z.node && gp == z.up.node
    modifies s
    ensures At(Snap(s), u, Step(z.up.up, d, par, BLACK, Mk(d, z.sibling, gp, RED, z.up.sibling)))
  {
    hide At, Mk, Snap;
    ghost var y, c, b := z.up.up, z.sibling, z.up.sibling;
    var o := Opposite(d);
    ghost var low := Mk(d, u, par, BLACK, c);
    DownAt(Snap(s), d, u, par, z.mark, c, z.up);
    Paint(par, BLACK, s, d, u, z.mark, c, z.up);
    DownAt(Snap(s), d, low, gp, z.up.mark, b, y);
    Paint(gp, RED, s, d, low, z.up.mark, b, y);
    MkBack(d, low, gp, RED, b);
    MkBack(d, u, par, BLACK, c);
    Rotate(gp, o, s, b, RED, c, par, BLACK, u, y);
    MkBack(o, b, gp, RED, c);
    MkBack(o, Mk(o, b, gp, RED, c), par, BLACK, u);
    DownAt(Snap(s), d, u, par, BLACK, Mk(d, c, gp, RED, b), y);
  }

  /** The rotation before it when the red subtree is on the inner side. */
  method TurnInner(par: Node, e: Dir, ghost s: set<Node>, ghost a: Tree, ghost n: Node, ghost b: Tree, ghost z: Path)
    requires e != P && At(Snap(s), Mk(e, a, n, RED, b), z) && z.Step? && z.side == Opposite(e) && par == z.node
    modifies s
    ensures At(Snap(s), Mk(e, z.sibling, par, z.mark, a), Step(z.up, e, n, RED, b))
  {
    hide At, Mk, Snap;
    ghost var u, c := Mk(e, a, n, RED, b), z.sibling;
    DownAt(Snap(s), z.side, u, par, z.mark, c, z.up);
    MkBack(z.side, u, par, z.mark, c);
    Rotate(par, e, s, c, z.mark, a, n, RED, b, z.up);
    DownAt(Snap(s), e, Mk(e, c, par, z.mark, a), n, RED, b, z.up);
  }

  // ----- order: none of it moves a node -----

  lemma RecolourInorder(u: Tree, z: Path)
    requires z.Step? && z.up.Step?
    ensures var low := Mk(z.side, u, z.node, BLACK, z.sibling);
            var v := Mk(z.up.side, low, z.up.node, RED, Blacken(z.up.sibling));
            Inorder(Zip(v, z.up.up)) == Inorder(Zip(u, z))
  {
    hide Inorder;
    var old_ := Mk(z.side, u, z.node, z.mark, z.sibling);
    var low := Mk(z.side, u, z.node, BLACK, z.sibling);
    InorderMk(z.side, u, z.node, z.mark, z.sibling);
    InorderMk(z.side, u, z.node, BLACK, z.sibling);
    InorderMk(z.up.side, old_, z.up.node, z.up.mark, z.up.sibling);
    InorderMk(z.up.side, low, z.up.node, RED, Blacken(z.up.sibling));
    BlackenInorder(z.up.sibling);
    ZipSame(Mk(z.up.side, old_, z.up.node, z.up.mark, z.up.sibling), Mk(z.up.side, low, z.up.node, RED, Blacken(z.up.sibling)), z.up.up);
  }

  lemma BlackenInorder(t: Tree)
    ensures Inorder(Blacken(t)) == Inorder(t) && (RB(t) ==> RB(Blacken(t)))
  {
  }

  lemma OuterInorder(u: Tree, z: Path)
    requires z.Step? && z.up.Step? && z.side == z.up.side
    ensures var d := z.side;
            Inorder(Zip(u, Step(z.up.up, d, z.node, BLACK, Mk(d, z.sibling, z.up.node, RED, z.up.sibling)))) == Inorder(Zip(u, z))
  {
    hide Inorder;
    var d, p, g, c, b := z.side, z.node, z.up.node, z.sibling, z.up.sibling;
    var before := Mk(d, Mk(d, u, p, z.mark, c), g, z.up.mark, b);
    var after := Mk(d, u, p, BLACK, Mk(d, c, g, RED, b));
    SameInorder(d, u, p, z.mark, c, g, z.up.mark, b);
    InorderMk(d, c, g, z.up.mark, b);
    InorderMk(d, c, g, RED, b);
    InorderMk(d, u, p, z.mark, Mk(d, c, g, z.up.mark, b));
    InorderMk(d, u, p, BLACK, Mk(d, c, g, RED, b));
    ZipSame(before, after, z.up.up);
  }

  lemma InnerInorder(e: Dir, a: Tree, n: Node, b: Tree, z: Path)
    requires e != P && z.Step? && z.side == Opposite(e)
    ensures Inorder(Zip(Mk(e, z.sibling, z.node, z.mark, a), Step(z.up, e, n, RED, b))) == Inorder(Zip(Mk(e, a, n, RED, b), z))
  {
    hide Inorder;
    var u, c := Mk(e, a, n, RED, b), z.sibling;
    MkBack(z.side, u, z.node, z.mark, c);
    SameInorder(e, c, z.node, z.mark, a, n, RED, b);
    ZipSame(Mk(e, c, z.node, z.mark, u), Mk(e, Mk(e, c, z.node, z.mark, a), n, RED, b), z.up);
  }

  // ----- rb_ins_at -----

  /** The loop of rb_ins_at, and the black root at its end. */
  method InsertFixup(node0: Node, root: Node, ghost s: set<Node>, ghost u0: Tree, ghost z0: Path) returns (ghost t: Tree)
    requires At(Snap(s), u0, z0) && RB(u0) && Col(u0) == RED && u0.node == node0 && RBPath(z0, Blacks(u0)) && Base(z0) == root
    modifies s
    ensures At(Snap(s), t, Top(root)) && RB(t) && Col(t) == BLACK && Inorder(t) == Inorder(Zip(u0, z0))
  {
    hide At, Inorder, Blacks, RB, RBPath, Snap, Mk;
    var node := node0;
    ghost var u, z := u0, z0;
    TopView(s, u, z);
    while node != root.par && node.par.mark == RED
      invariant At(Snap(s), u, z) && RB(u) && Col(u) == RED && u.node == node && RBPath(z, Blacks(u)) && Base(z) == root
      invariant Inorder(Zip(u, z)) == Inorder(Zip(u0, z0)) && node.par == z.Holder()
      invariant (node == root.par <==> z.Top?) && (z.Step? ==> node.par.mark == z.mark)
      decreases Depth(z)
    {
      InsertView(s, u, z);
      assert Depth(z) == Depth(z.up.up) + 2;
      var par := node.par;
      var gp := par.par;
      var side := par.pdir;
      var unc := gp.Child(Opposite(side));
      if PlainCol(unc) == RED {
        RecolourRB(u, z);
        RecolourInorder(u, z);
        Recolour(par, unc, gp, s, u, z);
        ghost var low := Mk(z.side, u, par, BLACK, z.sibling);
        ParentOf(z.up.side, low, gp, RED, Blacken(z.up.sibling));
        u, z := Mk(z.up.side, low, gp, RED, Blacken(z.up.sibling)), z.up.up;
        node := gp;
      } else {
        if node.pdir == Opposite(side) {
          ghost var e := z.up.side;
          MkSides(e, u);
          InnerRB(e, Near(e, u), node, Far(e, u), z);
          InnerInorder(e, Near(e, u), node, Far(e, u), z);
          ParentOf(e, z.sibling, par, RED, Near(e, u));
          TurnInner(par, side, s, Near(e, u), node, Far(e, u), z);
          u, z := Mk(e, z.sibling, par, RED, Near(e, u)), Step(z.up, e, node, RED, Far(e, u));
          node, par := par, node;
        }
        OuterRB(u, z);
        OuterInorder(u, z);
        TurnOuter(par, gp, side, s, u, z);
        z := Step(z.up.up, z.side, par, BLACK, Mk(z.side, z.sibling, gp, RED, z.up.sibling));
      }
      TopView(s, u, z);
    }
    RBPathMark(z, Blacks(u));
    ZipRB(u, z);
    InZip(u, z);
    t := Zip(u, z);
    WholeAt(Snap(s), u, z);
    MkSides(L, t);
    TopView(s, t, Top(root));
    Paint(root.par, BLACK, s, L, Near(L, t), t.mark, Far(L, t), Top(root));
    PaintedSides(L, t, BLACK);
    BlackenInorder(t);
    t := t.(mark := BLACK);
  }

  lemma RBPathMark(z: Path, k: nat)
    requires RBPath(z, k)
    ensures z.Step? ==> z.mark == RED || z.mark == BLACK
  {
  }

  /** Below a red node there is a black one above it, and its brother is where the code looks for it. */
  lemma InsertView(s: set<Node>, u: Tree, z: Path)
    requires At(Snap(s), u, z) && RBPath(z, Blacks(u)) && u.Branch? && z.Step? && z.mark == RED
    ensures Sided(z) && z.up.Step? && z.up.mark == BLACK && u.node.par == z.node && u.node.pdir == z.side
    ensures {u.node, z.node, z.up.node} <= s && z.node.par == z.up.node && z.node.pdir == z.up.side
    ensures z.up.node.Child(Opposite(z.up.side)) == Root(z.up.sibling)
    ensures z.up.sibling.Branch? ==> z.up.sibling.node.mark == z.up.sibling.mark && z.up.sibling.node in s
    ensures z.up.side != P && z.side != P && (Col(z.up.sibling) == RED || Col(z.up.sibling) == BLACK)
  {
    Around(s, u, z);
    DownAt(Snap(s), z.side, u, z.node, z.mark, z.sibling, z.up);
    Around(s, Mk(z.side, u, z.node, z.mark, z.sibling), z.up);
  }

  // ----- removal, on trees -----

  /** The place of `x` lacks one black node, which painting `x` black provides if it is red. */
  predicate Lacking(x: Tree, z: Path) {
    RB(Blacken(x)) && (Col(x) == BLACK ==> RB(x)) && (Col(x) == RED || Col(x) == BLACK) && RBPath(z, Blacks(x) + 1)
  }

  /** A red node or the top of the tree ends the loop: black it is in order. */
  lemma LackEnds(x: Tree, z: Path)
    requires Lacking(x, z) && (z.Top? || Col(x) == RED)
    ensures RB(Zip(Blacken(x), z)) && Col(Zip(Blacken(x), z)) == BLACK
  {
    ZipRB(Blacken(x), z);
  }

  /** A red brother: rotated up, it leaves a black one. */
  lemma RedBrother(d: Dir, x: Tree, up: Path, p: Node, m: int, a: Tree, w: Node, b: Tree)
    requires d != P && Lacking(x, Step(up, d, p, m, Mk(d, a, w, RED, b)))
    ensures m == BLACK && a.Branch? && Col(a) == BLACK
    ensures Lacking(x, Step(Step(up, d, w, BLACK, b), d, p, RED, a))
  {
  }

  /** A black brother without red children: painted red, it makes both sides lack the same. */
  lemma BlackBrother(d: Dir, x: Tree, up: Path, p: Node, m: int, w: Tree)
    requires d != P && Lacking(x, Step(up, d, p, m, w)) && Col(x) == BLACK && Col(w) == BLACK && w.Branch?
    requires Col(w.left) == BLACK && Col(w.right) == BLACK
    ensures Lacking(Mk(d, x, p, m, w.(mark := RED)), up)
  {
  }

  /** Only the nearer child of the brother is red: rotated up, it is a brother whose further child is red. */
  lemma NearNephew(d: Dir, x: Tree, up: Path, p: Node, m: int, a: Tree, n: Node, b: Tree, w: Node, c: Tree)
    requires d != P && Lacking(x, Step(up, d, p, m, Mk(d, Mk(d, a, n, RED, b), w, BLACK, c))) && Col(c) == BLACK
    ensures Lacking(x, Step(up, d, p, m, Mk(d, a, n, BLACK, Mk(d, b, w, RED, c))))
  {
    RBMk(d, a, n, RED, b);
    RBMk(d, Mk(d, a, n, RED, b), w, BLACK, c);
    RBMk(d, b, w, RED, c);
    RBMk(d, a, n, BLACK, Mk(d, b, w, RED, c));
  }

  /** The further child of the brother is red: one rotation and the tree is in order. */
  lemma FarNephew(d: Dir, x: Tree, up: Path, p: Node, m: int, a: Tree, w: Node, c: Tree)
    requires d != P && Lacking(x, Step(up, d, p, m, Mk(d, a, w, BLACK, c))) && Col(x) == BLACK && Col(c) == RED
    ensures var t := Mk(d, Mk(d, x, p, BLACK, a), w, m, Blacken(c));
            RB(Zip(t, up)) && Col(Zip(t, up)) == BLACK
  {
    RBMk(d, a, w, BLACK, c);
    RBMk(d, x, p, BLACK, a);
    RBMk(d, Mk(d, x, p, BLACK, a), w, m, Blacken(c));
    ZipRB(Mk(d, Mk(d, x, p, BLACK, a), w, m, Blacken(c)), up);
  }

  /** What taking a node out leaves: nothing amiss if the node that went was red, else a place that lacks one. */
  lemma {:induction false} SpineRB(t: Tree, z: Path)
    requires RB(t) && t.Branch? && RBPath(z, Blacks(t)) && (Col(t) == RED ==> z.Step? && z.mark == BLACK)
    ensures RB(Last(t)) && RBPath(Spine(t, z), Blacks(Last(t)))
    ensures Last(t).mark == RED ==> Spine(t, z).Step? && Spine(t, z).mark == BLACK && Col(Last(t).left) == BLACK
  {
    if t.right.Branch? { SpineRB(t.right, Step(z, R, t.node, t.mark, t.left)); }
  }

  lemma SpineStart(t: Tree, z: Path, n: Node)
    requires RB(t) && RBPath(z, Blacks(t)) && (Col(t) == RED ==> z.Step? && z.mark == BLACK) && t.Branch?
    ensures var b := Step(z, L, n, t.mark, t.right);
            RBPath(b, Blacks(t.left)) && (Col(t.left) == RED ==> b.mark == BLACK)
  {
  }

  lemma SpineEnd(rep: Tree, y: Path)
    requires rep.Branch? && RB(rep) && RBPath(y, Blacks(rep))
    requires rep.mark == RED ==> y.Step? && y.mark == BLACK && Col(rep.left) == BLACK
    ensures if rep.mark == RED then RB(Zip(rep.left, y)) && Col(Zip(rep.left, y)) == BLACK else Lacking(rep.left, y)
  {
    if rep.mark == RED { ZipRB(rep.left, y); }
  }

  lemma TakenOutRB(t: Tree, z: Path)
    requires RB(Zip(t, z)) && Col(Zip(t, z)) == BLACK && Sided(z) && t.Branch? && t.left.Branch?
    ensures var rep, y := Last(t.left), Spine(t.left, Step(z, L, Last(t.left).node, t.mark, t.right));
            if rep.mark == RED then RB(Zip(rep.left, y)) && Col(Zip(rep.left, y)) == BLACK else Lacking(rep.left, y)
  {
    hide Zip, Spine, Last, RBPath, Blacks, Lacking;
    UnzipRB(t, z);
    var rep := Last(t.left);
    var b := Step(z, L, rep.node, t.mark, t.right);
    SpineStart(t, z, rep.node);
    SpineRB(t.left, b);
    SpineEnd(rep, Spine(t.left, b));
  }

  lemma TakenOutLeaf(t: Tree, z: Path)
    requires RB(Zip(t, z)) && Col(Zip(t, z)) == BLACK && Sided(z) && t.Branch? && t.left == Leaf
    ensures t.right.Branch? ==>
      && Col(t.right) == RED && t.right.left == Leaf && t.right.right == Leaf
      && RB(Zip(t.right.(mark := t.mark), z)) && Col(Zip(t.right.(mark := t.mark), z)) == BLACK
    ensures t.right == Leaf ==> if t.mark == RED then RB(Zip(Leaf, z)) && Col(Zip(Leaf, z)) == BLACK else Lacking(Leaf, z)
  {
    hide Zip, RBPath, RB, Blacks, Lacking;
    UnzipRB(t, z);
    RightOnly(t);
    if t.right.Branch? {
      ZipRB(t.right.(mark := t.mark), z);
      if z.Top? { ZipTop(t.right.(mark := t.mark), z.root); }
    } else if t.mark == RED {
      ZipRB(Leaf, z);
    } else {
      LackingLeaf(t, z);
    }
  }

  /** What there is on the right when there is nothing on the left. */
  lemma RightOnly(t: Tree)
    requires RB(t) && t.Branch? && t.left == Leaf
    ensures t.right.Branch? ==>
      && Col(t.right) == RED && t.right.left == Leaf && t.right.right == Leaf && t.mark == BLACK
      && RB(t.right.(mark := t.mark)) && Blacks(t.right.(mark := t.mark)) == Blacks(t)
    ensures t.right == Leaf && t.mark == RED ==> Blacks(t) == Blacks(Leaf) && RB(Leaf)
  {
  }

  lemma LackingLeaf(t: Tree, z: Path)
    requires RB(t) && RBPath(z, Blacks(t)) && t.Branch? && t.left == Leaf && t.right == Leaf && t.mark != RED
    ensures Lacking(Leaf, z)
  {
  }

  // ----- rb_rem, on the fields -----

  /** Where the loop of rb_rem starts, and whether it has to. */
  ghost predicate Out(s: set<Node>, t: Tree, z: Path, par: Node, cdir: Dir, oldc: int, x: Tree, y: Path)
    reads s
  {
    && t.Branch? && At(Snap(s), x, y) && par == y.Holder() && cdir == y.Side() && Base(y) == Base(z)
    && Inorder(Zip(x, y)) == Inorder(Zip(Removed(t, t.mark), z))
    && (if oldc == RED then RB(Zip(x, y)) && Col(Zip(x, y)) == BLACK else Lacking(x, y))
  }

  /** rb_rem up to the loop: the replacement takes the place and the colour of `node`. */
  method TakeOut(node: Node, ghost s: set<Node>, ghost t: Tree, ghost z: Path)
    returns (par: Node, cdir: Dir, oldc: int, ghost x: Tree, ghost y: Path)
    requires At(Snap(s), t, z) && t.Branch? && t.node == node && RB(Zip(t, z)) && Col(Zip(t, z)) == BLACK
    modifies s
    ensures Out(s, t, z, par, cdir, oldc, x, y)
  {
    hide At, Snap, Out;
    Around(s, t, z);
    NodesAt(Snap(s), t, z);
    WhichRep(t);
    var tmp := FindRep(node, s, t, z);
    if tmp == null {
      par, cdir, oldc, x, y := OutAlone(node, s, t, z);
    } else if tmp == node.left {
      par, cdir, oldc, x, y := OutLeft(node, tmp, s, t, z);
    } else if tmp == node.right {
      par, cdir, oldc, x, y := OutRight(node, tmp, s, t, z);
    } else {
      par, cdir, oldc, x, y := OutDeep(node, tmp, s, t, z);
    }
  }

  method OutAlone(node: Node, ghost s: set<Node>, ghost t: Tree, ghost z: Path)
    returns (par: Node, cdir: Dir, oldc: int, ghost x: Tree, ghost y: Path)
    requires At(Snap(s), t, z) && t.Branch? && t.node == node && RB(Zip(t, z)) && Col(Zip(t, z)) == BLACK
    requires t.left == Leaf && t.right == Leaf
    modifies s
    ensures Out(s, t, z, par, cdir, oldc, x, y)
  {
    hide At, Snap, Zip, RB, Lacking, FixCells;
    Around(s, t, z);
    RemoveNoLeft(Snap(s), t, z);
    TakenOutLeaf(t, z);
    par, cdir, oldc := node.par, node.pdir, node.mark;
    Fix(par, null, cdir, s);
    x, y := Leaf, z;
  }

  /** The only child is a red leaf on the right. */
  method OutRight(node: Node, tmp: Node, ghost s: set<Node>, ghost t: Tree, ghost z: Path)
    returns (par: Node, cdir: Dir, oldc: int, ghost x: Tree, ghost y: Path)
    requires At(Snap(s), t, z) && t.Branch? && t.node == node && RB(Zip(t, z)) && Col(Zip(t, z)) == BLACK
    requires t.left == Leaf && t.right.Branch? && t.right.node == tmp
    modifies s
    ensures Out(s, t, z, par, cdir, oldc, x, y)
  {
    hide At, Snap, Zip, RB, Lacking, FixCells;
    Around(s, t, z);
    RemoveNoLeft(Snap(s), t, z);
    TakenOutLeaf(t, z);
    RootsIn(Snap(s), t, z);
    SnapAll(s);
    var m := node.mark;
    par, cdir := tmp, R;
    Fix(node.par, tmp, node.pdir, s);
    Around(s, t.right, z);
    oldc := tmp.mark;
    Paint(tmp, m, s, L, Leaf, t.right.mark, Leaf, z);
    DownAt(Snap(s), R, Leaf, tmp, m, Leaf, z);
    x, y := Leaf, Step(z, R, tmp, m, Leaf);
    ZipStep(R, Leaf, tmp, m, Leaf, z);
    ZipSame(Branch(Leaf, tmp, m, Leaf), t.right, z);
  }

  /** The left child has no right one. */
  method OutLeft(node: Node, tmp: Node, ghost s: set<Node>, ghost t: Tree, ghost z: Path)
    returns (par: Node, cdir: Dir, oldc: int, ghost x: Tree, ghost y: Path)
    requires At(Snap(s), t, z) && t.Branch? && t.node == node && RB(Zip(t, z)) && Col(Zip(t, z)) == BLACK
    requires t.left.Branch? && t.left.right == Leaf && t.left.node == tmp
    modifies s
    ensures Out(s, t, z, par, cdir, oldc, x, y)
  {
    hide At, Snap, Zip, RB, Lacking, FixCells;
    SnapAll(s);
    Around(s, t, z);
    RemoveLeftChild(Snap(s), t, z);
    TakenOutRB(t, z);
    RootsIn(Snap(s), t, z);
    var m := node.mark;
    par, cdir := tmp, L;
    ghost var a, r := t.left.left, t.right;
    MoveUp(node, tmp, s, Root(r), z.Holder(), z.Side());
    Around(s, Removed(t, t.left.mark), z);
    oldc := tmp.mark;
    Paint(tmp, m, s, L, a, t.left.mark, r, z);
    DownAt(Snap(s), L, a, tmp, m, r, z);
    x, y := a, Step(z, L, tmp, m, r);
    ZipStep(L, a, tmp, m, r, z);
  }

  /** The two calls of xx_fix for a direct left child. */
  method MoveUp(node: Node, tmp: Node, ghost s: set<Node>, ghost r: Node?, ghost holder: Node, ghost side: Dir)
    requires {node, tmp, holder} <= s && node != tmp && node.right == r && (r != null ==> r in s && r != node)
    requires node.par == holder && node.pdir == side
    modifies s
    ensures Snap(s) == FixCells(FixCells(old(Snap(s)), tmp, r, R), holder, tmp, side)
  {
    Fix(tmp, node.right, R, s);
    Fix(node.par, tmp, node.pdir, s);
  }

  /** The last node of the left subtree, further down. */
  method OutDeep(node: Node, tmp: Node, ghost s: set<Node>, ghost t: Tree, ghost z: Path)
    returns (par: Node, cdir: Dir, oldc: int, ghost x: Tree, ghost y: Path)
    requires At(Snap(s), t, z) && t.Branch? && t.node == node && RB(Zip(t, z)) && Col(Zip(t, z)) == BLACK
    requires t.left.Branch? && t.left.right.Branch? && Last(t.left).node == tmp
    modifies s
    ensures Out(s, t, z, par, cdir, oldc, x, y)
  {
    hide At, Snap, Zip, RB, Lacking, Spine, Last, Removed, Inorder;
    PlaceOfHolder(Snap(s), t, z);
    TakenOutRB(t, z);
    par, cdir, oldc, x, y := TakeDeep(node, tmp, s, t, z);
  }

  // ----- the loop of rb_rem -----

  /** A red brother: painted black and rotated up over the node, which turns red. */
  method TurnRed(par: Node, w: Node, d: Dir, ghost s: set<Node>, ghost x: Tree, ghost up: Path, ghost m: int, ghost a: Tree, ghost b: Tree)
    requires d != P && At(Snap(s), x, Step(up, d, par, m, Mk(d, a, w, RED, b)))
    modifies s
    ensures At(Snap(s), x, Step(Step(up, d, w, BLACK, b), d, par, RED, a))
  {
    hide At, Snap, Mk;
    ghost var o := Opposite(d);
    AcrossAt(Snap(s), d, x, up, par, m, Mk(d, a, w, RED, b));
    Paint(w, BLACK, s, d, a, RED, b, Step(up, o, par, m, x));
    ghost var w2 := Mk(d, a, w, BLACK, b);
    AcrossAt(Snap(s), d, x, up, par, m, w2);
    Paint(par, RED, s, d, x, m, w2, up);
    Rotate(par, d, s, x, RED, a, w, BLACK, b, up);
    DownAt(Snap(s), d, Mk(d, x, par, RED, a), w, BLACK, b, up);
    DownAt(Snap(s), d, x, par, RED, a, Step(up, d, w, BLACK, b));
  }

  /** Painting the brother, which stays where it is. */
  method PaintBrother(w: Node, m: int, ghost s: set<Node>, ghost d: Dir, ghost x: Tree, ghost up: Path, ghost p: Node, ghost mp: int, ghost b: Tree)
    requires d != P && At(Snap(s), x, Step(up, d, p, mp, b)) && b.Branch? && b.node == w
    modifies s
    ensures At(Snap(s), x, Step(up, d, p, mp, b.(mark := m)))
  {
    hide At, Snap, Mk;
    AcrossAt(Snap(s), d, x, up, p, mp, b);
    MkSides(L, b);
    PaintedSides(L, b, m);
    Paint(w, m, s, L, Near(L, b), b.mark, Far(L, b), Step(up, Opposite(d), p, mp, x));
    AcrossAt(Snap(s), d, x, up, p, mp, b.(mark := m));
  }

  /** The nearer child of the brother rises over it. */
  method TurnNear(w: Node, n: Node, d: Dir, ghost s: set<Node>, ghost x: Tree, ghost up: Path, ghost p: Node, ghost m: int,
      ghost a: Tree, ghost b: Tree, ghost c: Tree)
    requires d != P && At(Snap(s), x, Step(up, d, p, m, Mk(d, Mk(d, a, n, RED, b), w, BLACK, c)))
    modifies s
    ensures At(Snap(s), x, Step(up, d, p, m, Mk(d, a, n, BLACK, Mk(d, b, w, RED, c))))
  {
    hide At, Snap, Mk;
    var o := Opposite(d);
    ghost var y, n2 := Step(up, o, p, m, x), Mk(d, a, n, BLACK, b);
    AcrossAt(Snap(s), d, x, up, p, m, Mk(d, Mk(d, a, n, RED, b), w, BLACK, c));
    DownAt(Snap(s), d, Mk(d, a, n, RED, b), w, BLACK, c, y);
    Paint(n, BLACK, s, d, a, RED, b, Step(y, d, w, BLACK, c));
    DownAt(Snap(s), d, n2, w, BLACK, c, y);
    Paint(w, RED, s, d, n2, BLACK, c, y);
    MkBack(d, n2, w, RED, c);
    MkBack(d, a, n, BLACK, b);
    Rotate(w, o, s, c, RED, b, n, BLACK, a, y);
    MkBack(o, c, w, RED, b);
    MkBack(o, Mk(o, c, w, RED, b), n, BLACK, a);
    AcrossAt(Snap(s), d, x, up, p, m, Mk(d, a, n, BLACK, Mk(d, b, w, RED, c)));
  }

  /** The brother takes the place and colour of the node, which turns black, as does the brother's further child. */
  method TurnFar(par: Node, w: Node, f: Node, m: int, d: Dir, ghost s: set<Node>, ghost x: Tree, ghost up: Path, ghost a: Tree, ghost c: Tree)
    requires d != P && At(Snap(s), x, Step(up, d, par, m, Mk(d, a, w, BLACK, c))) && c.Branch? && c.node == f
    modifies s
    ensures At(Snap(s), Mk(d, Mk(d, x, par, BLACK, a), w, m, Blacken(c)), up)
  {
    hide At, Snap, Mk;
    ghost var o := Opposite(d);
    ghost var y, b := Step(up, o, par, m, x), Mk(d, a, w, BLACK, c);
    AcrossAt(Snap(s), d, x, up, par, m, b);
    Paint(w, m, s, d, a, BLACK, c, y);
    AcrossAt(Snap(s), d, x, up, par, m, Mk(d, a, w, m, c));
    Paint(par, BLACK, s, d, x, m, Mk(d, a, w, m, c), up);
    AcrossAt(Snap(s), d, x, up, par, BLACK, Mk(d, a, w, m, c));
    DownAt(Snap(s), d, a, w, m, c, Step(up, o, par, BLACK, x));
    PaintBrother(f, BLACK, s, d, a, Step(up, o, par, BLACK, x), w, m, c);
    DownAt(Snap(s), d, a, w, m, Blacken(c), Step(up, o, par, BLACK, x));
    AcrossAt(Snap(s), d, x, up, par, BLACK, Mk(d, a, w, m, Blacken(c)));
    Rotate(par, d, s, x, BLACK, a, w, m, Blacken(c), up);
  }

  // ----- order: none of it moves a node either -----

  lemma RedInorder(d: Dir, x: Tree, up: Path, p: Node, m: int, a: Tree, w: Node, b: Tree)
    ensures Inorder(Zip(x, Step(Step(up, d, w, BLACK, b), d, p, RED, a))) == Inorder(Zip(x, Step(up, d, p, m, Mk(d, a, w, RED, b))))
  {
    hide Inorder;
    TurnInorder(d, x, p, m, a, w, RED, b, RED, BLACK, b);
    ZipSame(Mk(d, x, p, m, Mk(d, a, w, RED, b)), Mk(d, Mk(d, x, p, RED, a), w, BLACK, b), up);
  }

  lemma BrotherInorder(d: Dir, x: Tree, up: Path, p: Node, m: int, b: Tree, c: Tree)
    requires Inorder(b) == Inorder(c)
    ensures Inorder(Zip(x, Step(up, d, p, m, b))) == Inorder(Zip(x, Step(up, d, p, m, c)))
  {
    hide Inorder;
    MkInorder(d, x, x, p, m, b, c);
    ZipSame(Mk(d, x, p, m, b), Mk(d, x, p, m, c), up);
  }

  lemma NearInorder(d: Dir, a: Tree, n: Node, b: Tree, w: Node, c: Tree)
    ensures Inorder(Mk(d, Mk(d, a, n, RED, b), w, BLACK, c)) == Inorder(Mk(d, a, n, BLACK, Mk(d, b, w, RED, c)))
  {
    TurnInorder(d, a, n, BLACK, b, w, RED, c, RED, BLACK, c);
  }

  lemma FarInorder(d: Dir, x: Tree, up: Path, p: Node, m: int, a: Tree, w: Node, c: Tree)
    ensures Inorder(Zip(Mk(d, Mk(d, x, p, BLACK, a), w, m, Blacken(c)), up)) == Inorder(Zip(x, Step(up, d, p, m, Mk(d, a, w, BLACK, c))))
  {
    hide Inorder;
    BlackenInorder(c);
    TurnInorder(d, x, p, m, a, w, BLACK, c, BLACK, m, Blacken(c));
    ZipSame(Mk(d, x, p, m, Mk(d, a, w, BLACK, c)), Mk(d, Mk(d, x, p, BLACK, a), w, m, Blacken(c)), up);
  }

  lemma PaintInorder(t: Tree, m: int)
    requires t.Branch?
    ensures Inorder(t.(mark := m)) == Inorder(t)
  {
  }

  // ----- rb_rem: the loop -----

  /** The place the loop stands at, with the nodes from left to right that it must keep. */
  ghost predicate Fixing(s: set<Node>, root: Node, par: Node, cdir: Dir, x: Tree, z: Path, order: seq<Node>)
    reads s
  {
    && At(Snap(s), x, z) && Lacking(x, z) && par == z.Holder() && cdir == z.Side() && Base(z) == root && Inorder(Zip(x, z)) == order
  }

  /** The brother of a place that lacks a black node, and what the fields show of it. */
  lemma BrotherView(s: set<Node>, x: Tree, z: Path)
    requires At(Snap(s), x, z) && Lacking(x, z) && z.Step?
    ensures Sided(z) && z.side != P && z.sibling.Branch? && (z.mark == RED || z.mark == BLACK)
    ensures z.sibling.mark == RED || z.sibling.mark == BLACK
    ensures var w := z.sibling;
            && {z.node, w.node} <= s && z.node.Child(Opposite(z.side)) == w.node && w.node.mark == w.mark && z.node.mark == z.mark
            && (w.left.Branch? ==> w.left.node in s) && (w.right.Branch? ==> w.right.node in s)
            && w.node.left == Root(w.left) && w.node.right == Root(w.right)
            && PlainCol(w.node.left) == Col(w.left) && PlainCol(w.node.right) == Col(w.right)
            && (Col(w.left) == RED || Col(w.left) == BLACK) && (Col(w.right) == RED || Col(w.right) == BLACK)
    ensures z.node.pdir == z.up.Side() && z.node.par == z.up.Holder()
  {
    hide At, Snap;
    Around(s, x, z);
    var w := z.sibling;
    assert w.Branch? && RB(w) && RB(w.left) && RB(w.right);
    AcrossAt(Snap(s), z.side, x, z.up, z.node, z.mark, w);
    var y := Step(z.up, Opposite(z.side), z.node, z.mark, x);
    DownAt(Snap(s), L, w.left, w.node, w.mark, w.right, y);
    DownAt(Snap(s), R, w.right, w.node, w.mark, w.left, y);
    Around(s, w.left, Step(y, L, w.node, w.mark, w.right));
    Around(s, w.right, Step(y, R, w.node, w.mark, w.left));
  }

  /** A red brother is turned into a black one first. */
  method RoundRed(par: Node, d: Dir, root: Node, ghost s: set<Node>, ghost x: Tree, ghost z0: Path, ghost order: seq<Node>)
    returns (ghost z: Path)
    requires Fixing(s, root, par, d, x, z0, order) && z0.Step? && Col(x) == BLACK
    modifies s
    ensures Fixing(s, root, par, d, x, z, order) && z.Step? && Col(z.sibling) == BLACK && z.sibling.Branch?
    ensures z == z0 || z.mark == RED
  {
    hide At, Snap, Mk, Lacking, Zip, Inorder;
    z := z0;
    BrotherView(s, x, z);
    var tmp := par.Child(Opposite(d));
    if tmp.mark == RED {
      ghost var w := z.sibling;
      ghost var a, b := Near(d, w), Far(d, w);
      MkSides(d, w);
      RedBrother(d, x, z.up, par, z.mark, a, tmp, b);
      RedInorder(d, x, z.up, par, z.mark, a, tmp, b);
      TurnRed(par, tmp, d, s, x, z.up, z.mark, a, b);
      ZipStep(d, x, par, RED, a, Step(z.up, d, tmp, BLACK, b));
      ZipStep(d, x, tmp, BLACK, b, z.up);
      z := Step(Step(z.up, d, tmp, BLACK, b), d, par, RED, a);
    }
  }

  /** A black brother. */
  method RoundBlack(par0: Node, d: Dir, root: Node, ghost s: set<Node>, ghost x0: Tree, ghost z0: Path, ghost order: seq<Node>)
    returns (par: Node, cdir: Dir, ghost x: Tree, ghost z: Path)
    requires Fixing(s, root, par0, d, x0, z0, order) && z0.Step? && Col(x0) == BLACK
    requires Col(z0.sibling) == BLACK && z0.sibling.Branch?
    modifies s
    ensures Fixing(s, root, par, cdir, x, z, order)
    ensures z.Top? || (z == z0.up && Col(x) == z0.mark)
  {
    hide At, Snap, Mk, Lacking, Zip, Inorder;
    BrotherView(s, x0, z0);
    ghost var m, w, up := z0.mark, z0.sibling, z0.up;
    var o := Opposite(d);
    var tmp := par0.Child(o);
    if PlainCol(tmp.left) == BLACK && PlainCol(tmp.right) == BLACK {
      BlackBrother(d, x0, up, par0, m, w);
      PaintInorder(w, RED);
      BrotherInorder(d, x0, up, par0, m, w, w.(mark := RED));
      PaintBrother(tmp, RED, s, d, x0, up, par0, m, w);
      AcrossAt(Snap(s), d, x0, up, par0, m, w.(mark := RED));
      ZipStep(d, x0, par0, m, w.(mark := RED), up);
      SidesOfMk(d, x0, par0, m, w.(mark := RED));
      x, z := Mk(d, x0, par0, m, w.(mark := RED)), up;
      Around(s, x, z);
      cdir := par0.pdir;
      par := par0.par;
    } else {
      x, z := RoundEnd(par0, tmp, d, root, s, x0, z0, order);
      par, cdir := root, P;
    }
  }

  lemma TopFixing(s: set<Node>, root: Node, x: Tree, z: Path)
    requires At(Snap(s), x, z) && RB(Zip(x, z)) && Col(Zip(x, z)) == BLACK && Base(z) == root
    ensures Fixing(s, root, root, P, Zip(x, z), Top(root), Inorder(Zip(x, z)))
  {
    WholeAt(Snap(s), x, z);
  }

  /** The brother has a red child: one or two rotations end the loop. */
  method RoundEnd(par: Node, tmp0: Node, d: Dir, root: Node, ghost s: set<Node>, ghost x0: Tree, ghost z0: Path, ghost order: seq<Node>)
    returns (ghost x: Tree, ghost z: Path)
    requires Fixing(s, root, par, d, x0, z0, order) && z0.Step? && Col(x0) == BLACK
    requires Col(z0.sibling) == BLACK && z0.sibling.Branch? && z0.sibling.node == tmp0
    requires Col(z0.sibling.left) == RED || Col(z0.sibling.right) == RED
    modifies s
    ensures Fixing(s, root, root, P, x, z, order) && z == Top(root)
  {
    hide At, Snap, Mk, Lacking, Zip, Inorder;
    BrotherView(s, x0, z0);
    ghost var up, m, w := z0.up, z0.mark, z0.sibling;
    var o := Opposite(d);
    var tmp := tmp0;
    ghost var y := z0;
    MkSides(d, w);
    if PlainCol(tmp.Child(o)) == BLACK {
      ghost var nb, c := Near(d, w), Far(d, w);
      MkSides(d, nb);
      NearNephew(d, x0, up, par, m, Near(d, nb), nb.node, Far(d, nb), tmp, c);
      NearInorder(d, Near(d, nb), nb.node, Far(d, nb), tmp, c);
      ghost var w2 := Mk(d, Near(d, nb), nb.node, BLACK, Mk(d, Far(d, nb), tmp, RED, c));
      BrotherInorder(d, x0, up, par, m, w, w2);
      TurnNear(tmp, tmp.Child(d), d, s, x0, up, par, m, Near(d, nb), Far(d, nb), c);
      y := Step(up, d, par, m, w2);
      SidesOfMk(d, Far(d, nb), tmp, RED, c);
      SidesOfMk(d, Near(d, nb), nb.node, BLACK, Mk(d, Far(d, nb), tmp, RED, c));
      BrotherView(s, x0, y);
      tmp := par.Child(o);
    }
    ghost var a, c := Near(d, y.sibling), Far(d, y.sibling);
    MkSides(d, y.sibling);
    FarNephew(d, x0, up, par, m, a, tmp, c);
    FarInorder(d, x0, up, par, m, a, tmp, c);
    TurnFar(par, tmp, tmp.Child(o), par.mark, d, s, x0, up, a, c);
    ghost var t := Mk(d, Mk(d, x0, par, BLACK, a), tmp, m, Blacken(c));
    TopFixing(s, root, t, up);
    x, z := Zip(t, up), Top(root);
  }

  lemma LackingCol(x: Tree, z: Path)
    requires Lacking(x, z)
    ensures Col(x) == RED || Col(x) == BLACK
  {
  }

  /** rb_rem after the node is out: the loop and the black root at its end. */
  method RemoveFixup(par0: Node, cdir0: Dir, root: Node, ghost s: set<Node>, ghost x0: Tree, ghost z0: Path) returns (ghost t: Tree)
    requires At(Snap(s), x0, z0) && Lacking(x0, z0) && par0 == z0.Holder() && cdir0 == z0.Side() && Base(z0) == root
    modifies s
    ensures At(Snap(s), t, Top(root)) && RB(t) && Col(t) == BLACK && Inorder(t) == Inorder(Zip(x0, z0))
  {
    hide At, Snap, Mk, Lacking, Zip, Inorder;
    var par, cdir := par0, cdir0;
    ghost var x, z, order := x0, z0, Inorder(Zip(x0, z0));
    Around(s, x, z);
    while cdir != P && PlainCol(par.Child(cdir)) == BLACK
      invariant Fixing(s, root, par, cdir, x, z, order) && Sided(z)
      invariant par in s && par.Child(cdir) == Root(x) && PlainCol(par.Child(cdir)) == Col(x) && (x.Branch? ==> x.node in s)
      decreases if z.Top? || Col(x) == RED then 0 else Depth(z)
    {
      ghost var z1 := RoundRed(par, cdir, root, s, x, z, order);
      par, cdir, x, z := RoundBlack(par, cdir, root, s, x, z1, order);
      Around(s, x, z);
    }
    LackingCol(x, z);
    LackEnds(x, z);
    var c := par.Child(cdir);
    if c != null {
      MkSides(L, x);
      PaintedSides(L, x, BLACK);
      Paint(c, BLACK, s, L, Near(L, x), x.mark, Far(L, x), z);
    }
    BlackenInorder(x);
    ZipSame(x, Blacken(x), z);
    TopFixing(s, root, Blacken(x), z);
    t := Zip(Blacken(x), z);
  }

  // ----- the tree -----

  /** The shape after a fresh node is hung: the red leaf at the place where the fix-up starts. */
  lemma FreshLeaf(z: Path, node: Node)
    requires RB(Zip(Leaf, z)) && Col(Zip(Leaf, z)) == BLACK && Sided(z)
    ensures var leaf := Branch(Leaf, node, RED, Leaf); RB(leaf) && Col(leaf) == RED && RBPath(z, Blacks(leaf))
  {
    UnzipRB(Leaf, z);
  }

  /** What the hanging of a red node makes of the tree. */
  lemma HungWhole(s: set<Node>, node: Node, z: Path)
    requires At(Snap(s), Leaf, z) && node !in s && node.left == null && node.right == null && node.mark == RED
    requires Sorted(Inorder(Zip(Leaf, z))) && Below(LeftOf(z), node.key) && Above(RightOf(z), node.key)
    requires RB(Zip(Leaf, z)) && Col(Zip(Leaf, z)) == BLACK
    ensures var leaf, h := Branch(Leaf, node, RED, Leaf), Snap(s + {node});
            && z.Holder() in h && At(FixCells(h, z.Holder(), node, z.Side()), leaf, z)
            && RB(leaf) && Col(leaf) == RED && RBPath(z, Blacks(leaf))
            && Sorted(Inorder(Zip(leaf, z))) && Nodes(Zip(leaf, z)) == Nodes(Zip(Leaf, z)) + {node}
  {
    hide At, Sorted, Inorder, Below, Above, Zip, Nodes, PathNodes, RB, RBPath, Snap, Blacks, FixCells;
    SnapAll(s);
    SnapAll(s + {node});
    NodesAt(Snap(s), Leaf, z);
    PlaceOfHolder(Snap(s), Leaf, z);
    SameAt(Snap(s), Snap(s + {node}), Leaf, z);
    HangAll(Snap(s + {node}), node, z);
    FreshLeaf(z, node);
  }

  /** A node with the colour of the one it replaces. */
  lemma ReplacedRB(t: Tree, z: Path, node: Node)
    requires RB(Zip(t, z)) && Col(Zip(t, z)) == BLACK && Sided(z) && t.Branch?
    ensures var u := Zip(t.(node := node), z); RB(u) && Col(u) == BLACK
  {
    UnzipRB(t, z);
    ZipRB(t.(node := node), z);
  }

  /** The whole of a replacement, as far as it does not depend on the fields. */
  lemma ReplacedWhole(s: set<Node>, t: Tree, z: Path, node: Node)
    requires At(Snap(s), t, z) && t.Branch? && s == Nodes(Zip(t, z)) + {Base(z)} && node !in s && t.node.key == node.key
    requires Sorted(Inorder(Zip(t, z))) && RB(Zip(t, z)) && Col(Zip(t, z)) == BLACK
    ensures At(Snap(s + {node}), t, z) && t.node in s && t.node != Base(z) && node !in Nodes(t) && node !in PathNodes(z)
    ensures var u := Zip(t.(node := node), z);
            Sorted(Inorder(u)) && Nodes(u) == Nodes(Zip(t, z)) - {t.node} + {node} && RB(u) && Col(u) == BLACK
  {
    hide At, Sorted, Inorder, Zip, Nodes, PathNodes, RB, Snap, Distinct, DistinctPath;
    SnapAll(s);
    SnapAll(s + {node});
    NodesAt(Snap(s), t, z);
    PlaceOfHolder(Snap(s), t, z);
    ChildrenApart(t);
    SameAt(Snap(s), Snap(s + {node}), t, z);
    ReplacedOrder(t, z, node, t.mark);
    ReplacedRB(t, z, node);
  }

  /** What is left after taking a node out no longer speaks of it. */
  lemma OutNodes(s: set<Node>, t: Tree, z: Path, par: Node, cdir: Dir, oldc: int, x: Tree, y: Path)
    requires Out(s, t, z, par, cdir, oldc, x, y) && Sorted(Inorder(Zip(Removed(t, t.mark), z)))
    requires Nodes(Zip(Removed(t, t.mark), z)) == Nodes(Zip(t, z)) - {t.node} && s == Nodes(Zip(t, z)) + {Base(z)} && t.node != Base(z)
    ensures Nodes(Zip(x, y)) == Nodes(Zip(t, z)) - {t.node} && Sorted(Inorder(Zip(x, y))) && At(Snap(s - {t.node}), x, y)
    ensures par == y.Holder() && cdir == y.Side() && Base(y) == Base(z)
    ensures if oldc == RED then RB(Zip(x, y)) && Col(Zip(x, y)) == BLACK else Lacking(x, y)
  {
    hide At, Sorted, Inorder, Zip, RB, Lacking, Snap;
    SameMembers(Zip(x, y), Zip(Removed(t, t.mark), z));
    ZipNodes(x, y);
    SnapAll(s);
    SnapAll(s - {t.node});
    SameAt(Snap(s), Snap(s - {t.node}), x, y);
  }

  /** struct rbtree. */
  class RbTree {
    const root: Node
    ghost var nodes: set<Node>
    ghost var tree: Tree

    ghost predicate Valid()
      reads this, nodes
    {
      && nodes == Nodes(tree) + {root} && At(Snap(nodes), tree, Top(root))
      && Sorted(Inorder(tree)) && RB(tree) && Col(tree) == BLACK
    }

    /** rb_init */
    constructor ()
      ensures Valid() && tree == Leaf && fresh(nodes)
    {
      var r := new Node(0);
      root := r;
      tree := Leaf;
      nodes := {r};
    }

    /** rb_lkup */
    method Lookup(key: int) returns (r: Node?)
      requires Valid()
      ensures r == null ==> forall n :: n in Nodes(tree) ==> n.key != key
      ensures r != null ==> r in Nodes(tree) && r.key == key
    {
      hide At, Sorted, Inorder, Below, Above;
      var n, dir, found, sub, z, steps := FindLoc(root, key, nodes, tree);
      InZip(sub, z);
      if found {
        r := n;
      } else {
        KeyAbsent(z, key);
        r := null;
      }
    }

    /** A node with the key can be hung on side `dir` of `loc`, which `z` leads to. */
    ghost predicate Place(loc: Node, dir: Dir, key: int, z: Path)
      reads this, nodes
    {
      && At(Snap(nodes), Leaf, z) && Zip(Leaf, z) == tree && Base(z) == root && loc == z.Holder() && dir == z.Side()
      && Below(LeftOf(z), key) && Above(RightOf(z), key)
    }

    /** rb_lkup with `rdir`: the node with the key, or the place for one. */
    method LookupLoc(key: int) returns (loc: Node, dir: Dir, found: bool, ghost z: Path)
      requires Valid()
      ensures found ==> loc in Nodes(tree) && loc.key == key
      ensures !found ==> Place(loc, dir, key, z) && forall n :: n in Nodes(tree) ==> n.key != key
    {
      hide At, Sorted, Inorder, Below, Above, RB;
      ghost var sub, steps;
      loc, dir, found, sub, z, steps := FindLoc(root, key, nodes, tree);
      InZip(sub, z);
      if !found {
        KeyAbsent(z, key);
      }
    }

    /** rb_ins with `loc` and `atdir`: no search, and no comparison. */
    method InsertAt(node: Node, loc: Node, atdir: Dir, ghost z: Path)
      requires Valid() && node !in nodes && node.left == null && node.right == null
      requires Place(loc, atdir, node.key, z)
      modifies this, nodes, node
      ensures Valid() && nodes == old(nodes) + {node} && Nodes(tree) == old(Nodes(tree)) + {node}
      ensures forall n :: n in old(Nodes(tree)) ==> n.key != node.key
    {
      hide At, Sorted, Inorder, Below, Above, RB;
      PlaceOfHolder(Snap(nodes), Leaf, z);
      KeyAbsent(z, node.key);
      Hang(loc, node, atdir, z);
    }

    /** rb_ins: a node with a key of its own joins the tree; otherwise it takes the place of the node with its key. */
    method Insert(node: Node) returns (r: Node?)
      requires Valid() && node !in nodes && node.left == null && node.right == null
      modifies this, nodes, node
      ensures Valid() && nodes == old(nodes) + {node} - {r}
      ensures r == null ==> Nodes(tree) == old(Nodes(tree)) + {node} && forall n :: n in old(Nodes(tree)) ==> n.key != node.key
      ensures r != null ==> r in old(Nodes(tree)) && r.key == node.key && Nodes(tree) == old(Nodes(tree)) - {r} + {node}
      ensures r != null ==> r.left == null && r.right == null && r.par == null
    {
      hide At, Sorted, Inorder, Below, Above, RB;
      var n, dir, found, sub, z, steps := FindLoc(root, node.key, nodes, tree);
      PlaceOfHolder(Snap(nodes), sub, z);
      InZip(sub, z);
      if found {
        Replace(n, node, sub, z);
        r := n;
      } else {
        KeyAbsent(z, node.key);
        Hang(n, node, dir, z);
        r := null;
      }
    }

    method Hang(n: Node, node: Node, dir: Dir, ghost z: Path)
      requires Valid() && node !in nodes && node.left == null && node.right == null
      requires At(Snap(nodes), Leaf, z) && Zip(Leaf, z) == tree && Base(z) == root && n == z.Holder() && dir == z.Side() && Sided(z)
      requires Below(LeftOf(z), node.key) && Above(RightOf(z), node.key)
      modifies this, nodes, node
      ensures Valid() && nodes == old(nodes) + {node} && Nodes(tree) == old(Nodes(tree)) + {node}
    {
      hide At, Sorted, Inorder, Below, Above, Zip, Nodes, RB, RBPath, Snap, FixCells, LeftOf, RightOf;
      node.mark := RED;
      ghost var s, leaf := nodes + {node}, Branch(Leaf, node, RED, Leaf);
      HungWhole(nodes, node, z);
      SnapAll(s);
      Fix(n, node, dir, s);
      ghost var t := InsertFixup(node, root, s, leaf, z);
      SameMembers(t, Zip(leaf, z));
      tree, nodes := t, s;
    }

    method Replace(n: Node, node: Node, ghost sub: Tree, ghost z: Path)
      requires Valid() && node !in nodes && node.key == n.key
      requires At(Snap(nodes), sub, z) && Zip(sub, z) == tree && Base(z) == root && sub.Branch? && sub.node == n && Sided(z)
      modifies this, nodes, node
      ensures Valid() && nodes == old(nodes) - {n} + {node} && Nodes(tree) == old(Nodes(tree)) - {n} + {node}
      ensures n.left == null && n.right == null && n.par == null
    {
      hide At, Sorted, Inorder, Zip, Nodes, PathNodes, RB, Snap, Apart;
      ghost var s, v := nodes + {node}, Zip(sub.(node := node), z);
      ReplacedWhole(nodes, sub, z, node);
      Around(nodes, sub, z);
      var m := n.mark;
      ghost var m0 := node.mark;
      TakeOver(n, node, s, sub, z);
      Paint(node, m, s, L, sub.left, m0, sub.right, z);
      WholeAt(Snap(s), sub.(node := node), z);
      SnapAt(s, s - {n}, v, root);
      tree, nodes := v, s - {n};
      n.Clear();
    }

    /** rb_rem */
    method Remove(node: Node)
      requires Valid() && node in Nodes(tree)
      modifies this, nodes
      ensures Valid() && nodes == old(nodes) - {node} && Nodes(tree) == old(Nodes(tree)) - {node}
      ensures node.left == null && node.right == null && node.par == null
    {
      hide At, Sorted, Inorder, Zip, Nodes, RB, Snap, FixCells, Out, Lacking;
      ghost var sub, z := PlaceOf(Snap(nodes), tree, Top(root), node);
      ZipTop(tree, root);
      NodesAt(Snap(nodes), sub, z);
      PlaceOfHolder(Snap(nodes), sub, z);
      ZipRemoved(sub, sub.mark, z);
      var par, cdir, oldc, x, y := TakeOut(node, nodes, sub, z);
      OutNodes(nodes, sub, z, par, cdir, oldc, x, y);
      nodes := nodes - {node};
      tree := Zip(x, y);
      node.Clear();
      if oldc == RED {
        WholeAt(Snap(nodes), x, y);
      } else {
        tree := RemoveFixup(par, cdir, root, nodes, x, y);
        SameMembers(tree, Zip(x, y));
      }
    }
  }
}
