/** AVL trees: include/cat/avl.h. The balance is the `mark` of a node: height of the right side less that of the left one. */
module Avl {
  import opened LinkedTree
  import opened TreeOrder

  /** `dir - 1` */
  function Sign(d: Dir): int {
    match d case L => -1 case P => 0 case R => 1
  }

  function Max(a: nat, b: nat): nat {
    if a < b then b else a
  }

  predicate AVL(t: Tree) {
    t.Branch? ==> AVL(t.left) && AVL(t.right) && t.mark == Height(t.right) - Height(t.left) && -1 <= t.mark <= 1
  }

  /** The same for the rest of the tree around a place that wants a subtree of height `k`. */
  predicate AvlPath(z: Path, k: nat) {
    z.Step? ==>
      && z.side != P && AVL(z.sibling) && z.mark == Sign(z.side) * (k - Height(z.sibling)) && -1 <= z.mark <= 1
      && AvlPath(z.up, 1 + Max(k, Height(z.sibling)))
  }

  // ----- what the invariant is good for: a tree of height h is never sparse -----

  function Fib(n: nat): nat {
    if n < 2 then n else Fib(n - 1) + Fib(n - 2)
  }

  lemma {:induction false} ManyNodes(t: Tree)
    requires AVL(t)
    ensures Fib(Height(t) + 2) - 1 <= |Inorder(t)|
  {
    if t.Branch? {
      ManyNodes(t.left);
      ManyNodes(t.right);
      Sides(t);
      hide AVL, Fib, Height, Inorder;
      FibNext(Height(t));
      FibMonotone(Height(t) - 1, Height(t.left) + 1);
      FibMonotone(Height(t) - 1, Height(t.right) + 1);
    }
  }

  lemma Sides(t: Tree)
    requires AVL(t) && t.Branch?
    ensures var h, l, r := Height(t), Height(t.left), Height(t.right); (l == h - 1 && h - 2 <= r < h) || (r == h - 1 && h - 2 <= l < h)
    ensures |Inorder(t)| == |Inorder(t.left)| + 1 + |Inorder(t.right)|
  {
  }

  lemma FibNext(n: nat)
    ensures Fib(n + 2) == Fib(n + 1) + Fib(n)
  {
  }

  lemma FibMonotone(a: nat, b: nat)
    requires b - 1 <= a <= b
    ensures a <= b && Fib(a + 1) <= Fib(b + 1)
  {
  }

  /** The bound is met: the tree with the fewest nodes at each height, with every node `n`. */
  function Sparsest(h: nat, n: Node): Tree {
    if h == 0 then Leaf else if h == 1 then Branch(Leaf, n, 0, Leaf) else Branch(Sparsest(h - 1, n), n, -1, Sparsest(h - 2, n))
  }

  lemma {:induction false} SparsestMeets(h: nat, n: Node)
    ensures AVL(Sparsest(h, n)) && Height(Sparsest(h, n)) == h && |Inorder(Sparsest(h, n))| == Fib(h + 2) - 1
  {
    if h >= 2 {
      SparsestMeets(h - 1, n);
      SparsestMeets(h - 2, n);
    }
  }

  // ----- places -----

  lemma AvlMk(d: Dir, near: Tree, n: Node, m: int, far: Tree)
    requires d != P
    ensures AVL(Mk(d, near, n, m, far)) <==>
      AVL(near) && AVL(far) && m == Sign(d) * (Height(near) - Height(far)) && -1 <= m <= 1
    ensures Height(Mk(d, near, n, m, far)) == 1 + Max(Height(near), Height(far))
  {
  }

  lemma {:induction false} ZipAvl(t: Tree, z: Path)
    requires AVL(t) && AvlPath(z, Height(t))
    ensures AVL(Zip(t, z))
    decreases z
  {
    if z.Step? {
      AvlMk(z.side, t, z.node, z.mark, z.sibling);
      ZipAvl(Mk(z.side, t, z.node, z.mark, z.sibling), z.up);
    }
  }

  lemma {:induction false} UnzipAvl(t: Tree, z: Path)
    requires AVL(Zip(t, z)) && Sided(z)
    ensures AVL(t) && AvlPath(z, Height(t))
    decreases z
  {
    if z.Step? {
      UnzipAvl(Mk(z.side, t, z.node, z.mark, z.sibling), z.up);
      AvlMk(z.side, t, z.node, z.mark, z.sibling);
    }
  }

  // ----- insertion, on trees -----

  /** The subtree at the place has grown by one. */
  predicate Grown(u: Tree, z: Path) {
    AVL(u) && u.Branch? && AvlPath(z, Height(u) - 1) && (u.mark != 0 || Height(u) == 1)
  }

  /** The other side was as high: the subtree above has grown too. */
  lemma GrowsOn(u: Tree, z: Path)
    requires Grown(u, z) && z.Step? && z.mark == 0
    ensures var v := Mk(z.side, u, z.node, Sign(z.side), z.sibling); Grown(v, z.up) && v.node == z.node
  {
  }

  /** The other side was higher: the subtree above has its height back. */
  lemma GrowsLevel(u: Tree, z: Path)
    requires Grown(u, z) && z.Step? && z.mark + Sign(z.side) == 0
    ensures AVL(Zip(Mk(z.side, u, z.node, 0, z.sibling), z.up))
  {
    hide Mk, Zip, Height;
    AvlMk(z.side, u, z.node, 0, z.sibling);
    ZipAvl(Mk(z.side, u, z.node, 0, z.sibling), z.up);
  }

  /** The side that grew was higher already; it leans outwards, and one rotation ends it. */
  lemma GrowsOuter(d: Dir, a: Tree, x: Node, m: int, b: Tree, p: Node, c: Tree, up: Path)
    requires d != P && Grown(Mk(d, a, x, m, b), Step(up, d, p, Sign(d), c)) && m == Sign(d)
    ensures AVL(Zip(Mk(Opposite(d), Mk(Opposite(d), c, p, 0, b), x, 0, a), up))
  {
    hide Mk, Zip, Height;
    var o := Opposite(d);
    AvlMk(d, a, x, m, b);
    AvlMk(o, c, p, 0, b);
    AvlMk(o, Mk(o, c, p, 0, b), x, 0, a);
    ZipAvl(Mk(o, Mk(o, c, p, 0, b), x, 0, a), up);
  }

  /** The balances that avl_zleft (`d == R`) and avl_zright (`d == L`) give to the two nodes that go down. */
  function TopMark(d: Dir, m: int): int {
    if m == Sign(d) then -Sign(d) else 0
  }

  function LowMark(d: Dir, m: int): int {
    if m == -Sign(d) then Sign(d) else 0
  }

  /** What a double rotation makes of a node with side `d` higher by two that leans inwards. */
  lemma DoubleAvl(d: Dir, a: Tree, x: Node, b: Tree, n: Node, m: int, c: Tree, p: Node, e: Tree)
    requires d != P && AVL(a) && AVL(Mk(d, b, n, m, c)) && AVL(e)
    requires Height(Mk(d, b, n, m, c)) == Height(a) + 1 == Height(e) + 1
    ensures var t := Mk(d, Mk(d, a, x, LowMark(d, m), b), n, 0, Mk(d, c, p, TopMark(d, m), e));
            AVL(t) && Height(t) == Height(a) + 2
  {
    AvlMk(d, b, n, m, c);
    AvlMk(d, a, x, LowMark(d, m), b);
    AvlMk(d, c, p, TopMark(d, m), e);
    AvlMk(d, Mk(d, a, x, LowMark(d, m), b), n, 0, Mk(d, c, p, TopMark(d, m), e));
  }

  /** It leans inwards: a double rotation ends it. */
  lemma GrowsInner(d: Dir, a: Tree, x: Node, mx: int, b: Tree, n: Node, m: int, c: Tree, p: Node, e: Tree, up: Path)
    requires d != P && Grown(Mk(d, a, x, mx, Mk(d, b, n, m, c)), Step(up, d, p, Sign(d), e)) && mx == -Sign(d)
    ensures AVL(Zip(Mk(d, Mk(d, a, x, LowMark(d, m), b), n, 0, Mk(d, c, p, TopMark(d, m), e)), up))
  {
    hide Mk, Zip, Height, LowMark, TopMark;
    AvlMk(d, a, x, mx, Mk(d, b, n, m, c));
    DoubleAvl(d, a, x, b, n, m, c, p, e);
    ZipAvl(Mk(d, Mk(d, a, x, LowMark(d, m), b), n, 0, Mk(d, c, p, TopMark(d, m), e)), up);
  }

  /** A subtree that leans inwards has the node that rises. */
  lemma InnerThere(d: Dir, near: Tree, x: Node, m: int, far: Tree)
    requires d != P && AVL(Mk(d, near, x, m, far)) && m == -Sign(d)
    ensures far.Branch?
  {
  }

  // ----- removal, on trees -----

  /** The subtree at the place has shrunk by one. */
  predicate Shrunk(x: Tree, z: Path) {
    AVL(x) && AvlPath(z, Height(x) + 1)
  }

  /** This side was the higher one: the subtree above has shrunk too. */
  lemma ShrinksOn(x: Tree, z: Path)
    requires Shrunk(x, z) && z.Step? && z.mark == Sign(z.side)
    ensures Shrunk(Mk(z.side, x, z.node, 0, z.sibling), z.up)
  {
  }

  /** Both sides were as high: the subtree above keeps its height. */
  lemma ShrinksLevel(x: Tree, z: Path)
    requires Shrunk(x, z) && z.Step? && z.mark == 0
    ensures AVL(Zip(Mk(z.side, x, z.node, -Sign(z.side), z.sibling), z.up))
  {
    hide Mk, Zip, Height;
    AvlMk(z.side, x, z.node, -Sign(z.side), z.sibling);
    ZipAvl(Mk(z.side, x, z.node, -Sign(z.side), z.sibling), z.up);
  }

  /** The other side was the higher one and leans nowhere: a single rotation keeps the height. */
  lemma ShrinksEven(d: Dir, x: Tree, p: Node, b: Tree, w: Node, c: Tree, up: Path)
    requires d != P && Shrunk(x, Step(up, d, p, -Sign(d), Mk(d, b, w, 0, c)))
    ensures AVL(Zip(Mk(d, Mk(d, x, p, -Sign(d), b), w, Sign(d), c), up))
  {
    hide Mk, Height, Zip;
    AvlMk(d, b, w, 0, c);
    AvlMk(d, x, p, -Sign(d), b);
    AvlMk(d, Mk(d, x, p, -Sign(d), b), w, Sign(d), c);
    ZipAvl(Mk(d, Mk(d, x, p, -Sign(d), b), w, Sign(d), c), up);
  }

  /** It leans outwards: a single rotation, and the subtree above has shrunk. */
  lemma ShrinksOuter(d: Dir, x: Tree, p: Node, b: Tree, w: Node, c: Tree, up: Path)
    requires d != P && Shrunk(x, Step(up, d, p, -Sign(d), Mk(d, b, w, -Sign(d), c)))
    ensures Shrunk(Mk(d, Mk(d, x, p, 0, b), w, 0, c), up)
  {
  }

  /** It leans inwards: a double rotation. Here `o` is the side of the higher subtree. */
  lemma ShrinksInner(o: Dir, a: Tree, w: Node, mw: int, b: Tree, n: Node, m: int, c: Tree, p: Node, x: Tree, up: Path)
    requires o != P && Shrunk(x, Step(up, Opposite(o), p, Sign(o), Mk(o, a, w, mw, Mk(o, b, n, m, c)))) && mw == -Sign(o)
    ensures Shrunk(Mk(o, Mk(o, a, w, LowMark(o, m), b), n, 0, Mk(o, c, p, TopMark(o, m), x)), up)
  {
    hide Mk, Zip, Height, LowMark, TopMark;
    AvlMk(o, a, w, mw, Mk(o, b, n, m, c));
    DoubleAvl(o, a, w, b, n, m, c, p, x);
  }

  /** The end of a way down to the right: the height of the last subtree is what its place wants. */
  lemma {:induction false} SpineAvl(t: Tree, z: Path)
    requires AVL(t) && t.Branch? && AvlPath(z, Height(t))
    ensures AVL(Last(t)) && AvlPath(Spine(t, z), Height(Last(t)))
  {
    if t.right.Branch? { SpineAvl(t.right, Step(z, R, t.node, t.mark, t.left)); }
  }

  lemma LastHeight(t: Tree)
    requires t.Branch? && t.right == Leaf && AVL(t)
    ensures AVL(t.left) && Height(t) == Height(t.left) + 1
  {
  }

  /** The last node of the left side goes: its place has shrunk. */
  lemma TakenOutAvl(t: Tree, z: Path)
    requires AVL(Zip(t, z)) && Sided(z) && t.Branch? && t.left.Branch?
    ensures Shrunk(Last(t.left).left, Spine(t.left, Step(z, L, Last(t.left).node, t.mark, t.right)))
  {
    hide Zip, Last, Spine, AVL, AvlPath, Height;
    UnzipAvl(t, z);
    LeftPath(t, z, Last(t.left).node);
    SpineAvl(t.left, Step(z, L, Last(t.left).node, t.mark, t.right));
    LastHeight(Last(t.left));
  }

  lemma LeftPath(t: Tree, z: Path, n: Node)
    requires AVL(t) && AvlPath(z, Height(t)) && t.Branch?
    ensures AVL(t.left) && AvlPath(Step(z, L, n, t.mark, t.right), Height(t.left))
  {
  }

  lemma TakenOutRight(t: Tree, z: Path)
    requires AVL(Zip(t, z)) && Sided(z) && t.Branch? && t.left == Leaf
    ensures Shrunk(t.right, z)
  {
    UnzipAvl(t, z);
  }

  // ----- the rotations with their balances -----

  /** After a rotation that does not end an insertion the balances depend on whether `n2` leant outwards. */
  function SingleMark(ins: bool, d: Dir, m2: int): int {
    if ins || -Sign(d) * m2 > 0 then 0 else Sign(d)
  }

  /** Both balances of a pair of nodes, the lower one on side `d`. */
  method PaintPair(low: Node, ml: int, top: Node, mt: int, d: Dir, ghost s: set<Node>,
      ghost a: Tree, ghost m1: int, ghost b: Tree, ghost m2: int, ghost c: Tree, ghost z: Path)
    requires d != P && At(Snap(s), Mk(d, Mk(d, a, low, m1, b), top, m2, c), z)
    modifies s
    ensures At(Snap(s), Mk(d, Mk(d, a, low, ml, b), top, mt, c), z)
  {
    hide At, Mk, Snap;
    DownAt(Snap(s), d, Mk(d, a, low, m1, b), top, m2, c, z);
    Paint(low, ml, s, d, a, m1, b, Step(z, d, top, m2, c));
    DownAt(Snap(s), d, Mk(d, a, low, ml, b), top, m2, c, z);
    Paint(top, mt, s, d, Mk(d, a, low, ml, b), m2, c, z);
  }

  /** avl_rleft for `d == L`, avl_rright for `d == R`. */
  method Single(n1: Node, n2: Node, ins: bool, d: Dir, ghost s: set<Node>,
      ghost a: Tree, ghost m1: int, ghost b: Tree, ghost m2: int, ghost c: Tree, ghost z: Path)
    requires d != P && At(Snap(s), Mk(d, a, n1, m1, Mk(d, b, n2, m2, c)), z)
    modifies s
    ensures At(Snap(s), Mk(d, Mk(d, a, n1, -SingleMark(ins, d, m2), b), n2, SingleMark(ins, d, m2), c), z)
  {
    hide At, Mk, Snap;
    Rotate(n1, d, s, a, m1, b, n2, m2, c, z);
    HereAt(Snap(s), d, Mk(d, a, n1, m1, b), n2, m2, c, z);
    SnapAll(s);
    if ins || -Sign(d) * n2.mark > 0 {
      PaintPair(n1, 0, n2, 0, d, s, a, m1, b, m2, c, z);
    } else {
      PaintPair(n1, -Sign(d), n2, Sign(d), d, s, a, m1, b, m2, c, z);
    }
  }

  /** The five calls of xx_fix of a double rotation. */
  method DoubleFix(n1: Node, n2: Node, n3: Node, d: Dir, ghost s: set<Node>, ghost b: Node?, ghost c: Node?, ghost holder: Node, ghost side: Dir)
    requires d != P && {n1, n2, n3, holder} <= s && Different(n1, n2, n3, holder, b, c)
    requires (b != null ==> b in s) && (c != null ==> c in s)
    requires n1.par == holder && n1.pdir == side && n3.Child(d) == b && n3.Child(Opposite(d)) == c
    modifies s
    ensures var k := FixCells(FixCells(old(Snap(s)), n2, b, Opposite(d)), n1, c, d);
            Snap(s) == FixCells(FixCells(FixCells(k, holder, n3, side), n3, n1, Opposite(d)), n3, n2, d)
  {
    Fix(n2, n3.Child(d), Opposite(d), s);
    Fix(n1, n3.Child(Opposite(d)), d, s);
    Fix(n1.par, n3, n1.pdir, s);
    Fix(n3, n1, Opposite(d), s);
    Fix(n3, n2, d, s);
  }

  /** avl_zleft for `d == R`, avl_zright for `d == L`: `n3` rises between its parent `n2` and `n1` above that. */
  method Double(n1: Node, n2: Node, n3: Node, d: Dir, ghost s: set<Node>,
      ghost a: Tree, ghost m2: int, ghost b: Tree, ghost m3: int, ghost c: Tree, ghost m1: int, ghost e: Tree, ghost z: Path)
    requires d != P && -1 <= m3 <= 1 && At(Snap(s), Mk(d, Mk(d, a, n2, m2, Mk(d, b, n3, m3, c)), n1, m1, e), z)
    modifies s
    ensures At(Snap(s), Mk(d, Mk(d, a, n2, LowMark(d, m3), b), n3, 0, Mk(d, c, n1, TopMark(d, m3), e)), z)
  {
    hide At, Mk, Snap, FixCells;
    SnapAll(s);
    ZigZagAt(Snap(s), d, a, n2, m2, b, n3, m3, c, n1, m1, e, z);
    DoubleFix(n1, n2, n3, d, s, Root(b), Root(c), z.Holder(), z.Side());
    HereAt(Snap(s), d, Mk(d, a, n2, m2, b), n3, m3, Mk(d, c, n1, m1, e), z);
    SnapAll(s);
    var t1, t2 := n1.mark, n2.mark;
    if n3.mark == Sign(d) {
      t1, t2 := -Sign(d), 0;
    } else if n3.mark == 0 {
      t1, t2 := 0, 0;
    } else if n3.mark == -Sign(d) {
      t1, t2 := 0, Sign(d);
    }
    ghost var low := Mk(d, a, n2, t2, b);
    PaintPair(n2, t2, n3, 0, d, s, a, m2, b, m3, Mk(d, c, n1, m1, e), z);
    ghost var y := Step(z, Opposite(d), n3, 0, low);
    DownAt(Snap(s), d, low, n3, 0, Mk(d, c, n1, m1, e), z);
    AcrossAt(Snap(s), d, low, z, n3, 0, Mk(d, c, n1, m1, e));
    Paint(n1, t1, s, d, c, m1, e, y);
    AcrossAt(Snap(s), d, low, z, n3, 0, Mk(d, c, n1, t1, e));
  }

  // ----- order: none of it moves a node -----

  lemma BalanceInorder(d: Dir, u: Tree, p: Node, m: int, m2: int, b: Tree, up: Path)
    ensures Inorder(Zip(Mk(d, u, p, m2, b), up)) == Inorder(Zip(u, Step(up, d, p, m, b)))
  {
    hide Inorder, Mk;
    InorderMk(d, u, p, m, b);
    InorderMk(d, u, p, m2, b);
    ZipSame(Mk(d, u, p, m2, b), Mk(d, u, p, m, b), up);
  }

  lemma SingleInorder(d: Dir, a: Tree, x: Node, m1: int, b: Tree, y: Node, m2: int, c: Tree, m3: int, m4: int, up: Path)
    ensures Inorder(Zip(Mk(d, a, x, m1, Mk(d, b, y, m2, c)), up)) == Inorder(Zip(Mk(d, Mk(d, a, x, m3, b), y, m4, c), up))
  {
    hide Inorder, Mk;
    TurnInorder(d, a, x, m1, b, y, m2, c, m3, m4, c);
    ZipSame(Mk(d, a, x, m1, Mk(d, b, y, m2, c)), Mk(d, Mk(d, a, x, m3, b), y, m4, c), up);
  }

  lemma DoubleInorder(d: Dir, a: Tree, x: Node, mx: int, b: Tree, n: Node, m: int, c: Tree, p: Node, mp: int, e: Tree,
      l: int, t: int, up: Path)
    ensures Inorder(Zip(Mk(d, Mk(d, a, x, mx, Mk(d, b, n, m, c)), p, mp, e), up)) ==
            Inorder(Zip(Mk(d, Mk(d, a, x, l, b), n, 0, Mk(d, c, p, t, e)), up))
  {
    hide Inorder, Mk, Zip;
    var u, v := Mk(d, Mk(d, a, x, mx, Mk(d, b, n, m, c)), p, mp, e), Mk(d, Mk(d, a, x, l, b), n, 0, Mk(d, c, p, t, e));
    InorderMk(d, b, n, m, c);
    InorderMk(d, a, x, mx, Mk(d, b, n, m, c));
    InorderMk(d, Mk(d, a, x, mx, Mk(d, b, n, m, c)), p, mp, e);
    InorderMk(d, a, x, l, b);
    InorderMk(d, c, p, t, e);
    InorderMk(d, Mk(d, a, x, l, b), n, 0, Mk(d, c, p, t, e));
    var s, q, r, w := Inorder(a), Inorder(b), Inorder(c), Inorder(e);
    if d == R { Regroup(w, p, r, n, q, x, s); } else { Regroup(s, x, q, n, r, p, w); }
    ZipSame(u, v, up);
  }

  lemma Regroup(a: seq<Node>, x: Node, b: seq<Node>, n: Node, c: seq<Node>, p: Node, e: seq<Node>)
    ensures (a + [x] + (b + [n] + c)) + [p] + e == (a + [x] + b) + [n] + (c + [p] + e) == a + [x] + ((b + [n] + c) + [p] + e)
  {
  }

  // ----- avl_ins_at -----

  /** The fields show the tree around a place, with these nodes from left to right. */
  ghost predicate Stands(s: set<Node>, root: Node, u: Tree, z: Path, order: seq<Node>)
    reads s
  {
    At(Snap(s), u, z) && Base(z) == root && Inorder(Zip(u, z)) == order
  }

  /** Nothing is left to do: the whole tree. */
  lemma Settled(s: set<Node>, root: Node, u: Tree, z: Path, order: seq<Node>)
    requires Stands(s, root, u, z, order) && AVL(Zip(u, z))
    ensures At(Snap(s), Zip(u, z), Top(root)) && Inorder(Zip(u, z)) == order
  {
    WholeAt(Snap(s), u, z);
  }

  /** The subtree that grew sits on the higher side `d` of `node`: one of the four rotations. */
  method InsertTurn(node: Node, root: Node, d: Dir, ghost s: set<Node>, ghost u: Tree, ghost up: Path, ghost b: Tree, ghost order: seq<Node>)
    returns (ghost t: Tree)
    requires d != P && Stands(s, root, Mk(d, u, node, 2 * Sign(d), b), up, order) && Grown(u, Step(up, d, node, Sign(d), b))
    modifies s
    ensures At(Snap(s), t, Top(root)) && AVL(t) && Inorder(t) == order
  {
    hide At, Mk, Snap, Inorder, Zip, AVL, AvlPath;
    ghost var m, near, far := 2 * Sign(d), Near(d, u), Far(d, u);
    var o := Opposite(d);
    HereAt(Snap(s), d, u, node, m, b, up);
    DownAt(Snap(s), d, u, node, m, b, up);
    Around(s, u, Step(up, d, node, m, b));
    SnapAll(s);
    MkSides(d, u);
    Leaning(u, d, node, b, up);
    var tmp := node.Child(d);
    if Sign(d) * tmp.mark > 0 {
      MkBack(d, near, tmp, u.mark, far);
      MkBack(d, u, node, m, b);
      GrowsOuter(d, near, tmp, u.mark, far, node, b, up);
      SingleInorder(o, b, node, m, far, tmp, u.mark, near, 0, 0, up);
      Single(node, tmp, true, o, s, b, m, far, u.mark, near, up);
      t := Zip(Mk(o, Mk(o, b, node, 0, far), tmp, 0, near), up);
      Settled(s, root, Mk(o, Mk(o, b, node, 0, far), tmp, 0, near), up, order);
    } else {
      InnerThere(d, near, tmp, u.mark, far);
      ghost var n3, m3, b3, c3 := far.node, far.mark, Near(d, far), Far(d, far);
      MkSides(d, far);
      GrowsInner(d, near, tmp, u.mark, b3, n3, m3, c3, node, b, up);
      DoubleInorder(d, near, tmp, u.mark, b3, n3, m3, c3, node, m, b, LowMark(d, m3), TopMark(d, m3), up);
      InnerMark(d, near, tmp, u.mark, far);
      Double(node, tmp, tmp.Child(o), d, s, near, u.mark, b3, m3, c3, m, b, up);
      ghost var v := Mk(d, Mk(d, near, tmp, LowMark(d, m3), b3), n3, 0, Mk(d, c3, node, TopMark(d, m3), b));
      t := Zip(v, up);
      Settled(s, root, v, up, order);
    }
  }

  /** What grew on a higher side is more than the new node, so it leans to one side. */
  lemma Leaning(u: Tree, d: Dir, p: Node, b: Tree, up: Path)
    requires d != P && Grown(u, Step(up, d, p, Sign(d), b))
    ensures AVL(u) && (u.mark == Sign(d) || u.mark == -Sign(d))
  {
  }

  lemma InnerMark(d: Dir, near: Tree, x: Node, m: int, far: Tree)
    requires d != P && AVL(Mk(d, near, x, m, far)) && far.Branch?
    ensures -1 <= far.mark <= 1
  {
  }

  /** The loop of avl_ins_at. */
  method InsertFixup(node0: Node, root: Node, ghost s: set<Node>, ghost u0: Tree, ghost z0: Path) returns (ghost t: Tree)
    requires At(Snap(s), u0, z0) && Grown(u0, z0) && u0.node == node0 && Base(z0) == root
    modifies s
    ensures At(Snap(s), t, Top(root)) && AVL(t) && Inorder(t) == Inorder(Zip(u0, z0))
  {
    hide At, Mk, Snap, Inorder, Zip, AVL, AvlPath, Grown;
    var node := node0;
    ghost var u, z, order := u0, z0, Inorder(Zip(u0, z0));
    Around(s, u, z);
    GrownBranch(u, z);
    while node.pdir != P
      invariant Stands(s, root, u, z, order) && Grown(u, z) && u.Branch? && u.node == node && node in s
      invariant node.par == z.Holder() && node.pdir == z.Side() && Sided(z)
      decreases Depth(z)
    {
      var dir := node.pdir;
      node := node.par;
      Around(s, u, z);
      GrownMark(u, z);
      ghost var m, b, up := z.mark, z.sibling, z.up;
      DownAt(Snap(s), dir, u, node, m, b, up);
      BalanceInorder(dir, u, node, m, m + Sign(dir), b, up);
      var b1 := node.mark + Sign(dir);
      Paint(node, b1, s, dir, u, m, b, up);
      if b1 != 0 {
        if b1 < -1 {
          t := InsertTurn(node, root, L, s, u, up, b, order);
          return;
        } else if b1 > 1 {
          t := InsertTurn(node, root, R, s, u, up, b, order);
          return;
        }
        GrowsOn(u, z);
        u, z := Mk(dir, u, node, b1, b), up;
        Around(s, u, z);
        GrownBranch(u, z);
      } else {
        GrowsLevel(u, z);
        Settled(s, root, Mk(dir, u, node, 0, b), up, order);
        t := Zip(Mk(dir, u, node, 0, b), up);
        return;
      }
    }
    GrownTop(u, z);
    Settled(s, root, u, z, order);
    t := Zip(u, z);
  }

  lemma GrownBranch(u: Tree, z: Path)
    requires Grown(u, z)
    ensures u.Branch?
  {
  }

  lemma GrownMark(u: Tree, z: Path)
    requires Grown(u, z) && z.Step?
    ensures -1 <= z.mark <= 1 && (z.mark == 0 || z.mark == Sign(z.side) || z.mark == -Sign(z.side)) && z.side != P
  {
  }

  lemma GrownTop(u: Tree, z: Path)
    requires Grown(u, z) && z.Top?
    ensures AVL(Zip(u, z))
  {
  }

  // ----- avl_rem, on the fields -----

  /** Where the loop of avl_rem starts. */
  ghost predicate Out(s: set<Node>, t: Tree, z: Path, trav: Node, dir: Dir, x: Tree, y: Path)
    reads s
  {
    && t.Branch? && At(Snap(s), x, y) && trav == y.Holder() && dir == y.Side() && Base(y) == Base(z)
    && Inorder(Zip(x, y)) == Inorder(Zip(Removed(t, t.mark), z)) && Shrunk(x, y)
  }

  /** avl_rem up to the loop: the replacement takes the place and the balance of `node`. */
  method TakeOut(node: Node, ghost s: set<Node>, ghost t: Tree, ghost z: Path)
    returns (trav: Node, dir: Dir, ghost x: Tree, ghost y: Path)
    requires At(Snap(s), t, z) && t.Branch? && t.node == node && AVL(Zip(t, z))
    modifies s
    ensures Out(s, t, z, trav, dir, x, y)
  {
    hide At, Snap, Out, AVL, Zip;
    Around(s, t, z);
    NodesAt(Snap(s), t, z);
    WhichRep(t);
    var par := node.par;
    var rep := FindRep(node, s, t, z);
    if rep != null && node.left != rep && node.right != rep {
      trav, dir, x, y := OutDeep(node, rep, s, t, z);
    } else if rep != null && node.left == rep {
      trav, dir, x, y := OutLeft(node, rep, s, t, z);
    } else {
      trav, dir, x, y := OutRight(node, rep, s, t, z);
    }
  }

  /** The last node of the left subtree, further down. */
  method OutDeep(node: Node, rep: Node, ghost s: set<Node>, ghost t: Tree, ghost z: Path)
    returns (trav: Node, dir: Dir, ghost x: Tree, ghost y: Path)
    requires At(Snap(s), t, z) && t.Branch? && t.node == node && AVL(Zip(t, z))
    requires t.left.Branch? && t.left.right.Branch? && Last(t.left).node == rep
    modifies s
    ensures Out(s, t, z, trav, dir, x, y)
  {
    hide At, Snap, Zip, AVL, Shrunk, Spine, Last, Removed, Inorder;
    PlaceOfHolder(Snap(s), t, z);
    TakenOutAvl(t, z);
    var b;
    trav, dir, b, x, y := TakeDeep(node, rep, s, t, z);
  }

  /** No left child: the right one, if any, moves up. */
  method OutRight(node: Node, rep: Node?, ghost s: set<Node>, ghost t: Tree, ghost z: Path)
    returns (trav: Node, dir: Dir, ghost x: Tree, ghost y: Path)
    requires At(Snap(s), t, z) && t.Branch? && t.node == node && AVL(Zip(t, z))
    requires t.left == Leaf && rep == Root(t.right)
    modifies s
    ensures Out(s, t, z, trav, dir, x, y)
  {
    hide At, Snap, Zip, AVL, Shrunk, FixCells, Inorder;
    SnapAll(s);
    Around(s, t, z);
    RemoveNoLeft(Snap(s), t, z);
    TakenOutRight(t, z);
    RootsIn(Snap(s), t, z);
    trav, dir := node.par, node.pdir;
    Fix(trav, rep, dir, s);
    x, y := t.right, z;
  }

  /** The left child has no right one. */
  method OutLeft(node: Node, rep: Node, ghost s: set<Node>, ghost t: Tree, ghost z: Path)
    returns (trav: Node, dir: Dir, ghost x: Tree, ghost y: Path)
    requires At(Snap(s), t, z) && t.Branch? && t.node == node && AVL(Zip(t, z))
    requires t.left.Branch? && t.left.right == Leaf && t.left.node == rep
    modifies s
    ensures Out(s, t, z, trav, dir, x, y)
  {
    hide At, Snap, Zip, AVL, Shrunk, FixCells, Inorder;
    SnapAll(s);
    Around(s, t, z);
    RemoveLeftChild(Snap(s), t, z);
    TakenOutAvl(t, z);
    RootsIn(Snap(s), t, z);
    var b := node.mark;
    ghost var a, r := t.left.left, t.right;
    MoveUp(node, rep, s, Root(r), z.Holder(), z.Side());
    trav, dir := rep, L;
    Paint(rep, b, s, L, a, t.left.mark, r, z);
    DownAt(Snap(s), L, a, rep, b, r, z);
    x, y := a, Step(z, L, rep, b, r);
    ZipStep(L, a, rep, b, r, z);
  }

  /** The two calls of xx_fix for a direct left child. */
  method MoveUp(node: Node, rep: Node, ghost s: set<Node>, ghost r: Node?, ghost holder: Node, ghost side: Dir)
    requires {node, rep, holder} <= s && node != rep && holder != node && node.right == r && (r != null ==> r in s && r != node)
    requires node.par == holder && node.pdir == side && node.left == rep
    modifies s
    ensures Snap(s) == FixCells(FixCells(old(Snap(s)), holder, rep, side), rep, r, R)
  {
    Fix(node.par, rep, node.pdir, s);
    Fix(rep, node.right, R, s);
  }

  // ----- the loop of avl_rem -----

  /** The higher side leans outwards, or not at all: a single rotation. */
  method RemoveSingle(node: Node, tmp: Node, root: Node, d: Dir, ghost s: set<Node>, ghost x: Tree, ghost up: Path,
      ghost near: Tree, ghost bm: int, ghost far: Tree, ghost order: seq<Node>)
    returns (done: bool, ghost v: Tree)
    requires d != P && Stands(s, root, Mk(d, Mk(d, near, tmp, bm, far), node, 2 * Sign(d), x), up, order)
    requires Shrunk(x, Step(up, Opposite(d), node, Sign(d), Mk(d, near, tmp, bm, far))) && (bm == 0 || bm == Sign(d))
    modifies s
    ensures Stands(s, root, v, up, order) && v.Branch? && v.node == tmp
    ensures if done then AVL(Zip(v, up)) else Shrunk(v, up)
  {
    hide At, Mk, Snap, Inorder, Zip, AVL, AvlPath, Shrunk;
    var o := Opposite(d);
    ghost var k := SingleMark(false, o, bm);
    MkBack(d, near, tmp, bm, far);
    MkBack(d, Mk(d, near, tmp, bm, far), node, 2 * Sign(d), x);
    SingleInorder(o, x, node, 2 * Sign(d), far, tmp, bm, near, -k, k, up);
    Single(node, tmp, false, o, s, x, 2 * Sign(d), far, bm, near, up);
    v := Mk(o, Mk(o, x, node, -k, far), tmp, k, near);
    ParentOf(o, Mk(o, x, node, -k, far), tmp, k, near);
    HereAt(Snap(s), o, Mk(o, x, node, -k, far), tmp, k, near, up);
    SnapAll(s);
    done := tmp.mark != 0;
    if done {
      ShrinksEven(o, x, node, far, tmp, near, up);
    } else {
      ShrinksOuter(o, x, node, far, tmp, near, up);
    }
  }

  /** It leans inwards: a double rotation. */
  method RemoveDouble(node: Node, tmp: Node, root: Node, d: Dir, ghost s: set<Node>, ghost x: Tree, ghost up: Path,
      ghost near: Tree, ghost bm: int, ghost far: Tree, ghost order: seq<Node>)
    returns (tmp2: Node, ghost v: Tree)
    requires d != P && Stands(s, root, Mk(d, Mk(d, near, tmp, bm, far), node, 2 * Sign(d), x), up, order)
    requires Shrunk(x, Step(up, Opposite(d), node, Sign(d), Mk(d, near, tmp, bm, far))) && AVL(Mk(d, near, tmp, bm, far)) && bm == -Sign(d)
    requires tmp.Child(Opposite(d)) == Root(far)
    modifies s
    ensures Stands(s, root, v, up, order) && v.Branch? && v.node == tmp2 && Shrunk(v, up)
  {
    hide At, Mk, Snap, Inorder, Zip, AVL, AvlPath, Shrunk;
    InnerThere(d, near, tmp, bm, far);
    InnerMark(d, near, tmp, bm, far);
    ghost var n3, m3, b3, c3 := far.node, far.mark, Near(d, far), Far(d, far);
    MkSides(d, far);
    ShrinksInner(d, near, tmp, bm, b3, n3, m3, c3, node, x, up);
    DoubleInorder(d, near, tmp, bm, b3, n3, m3, c3, node, 2 * Sign(d), x, LowMark(d, m3), TopMark(d, m3), up);
    tmp2 := tmp.Child(Opposite(d));
    Double(node, tmp, tmp2, d, s, near, bm, b3, m3, c3, 2 * Sign(d), x, up);
    v := Mk(d, Mk(d, near, tmp, LowMark(d, m3), b3), n3, 0, Mk(d, c3, node, TopMark(d, m3), x));
    ParentOf(d, Mk(d, near, tmp, LowMark(d, m3), b3), n3, 0, Mk(d, c3, node, TopMark(d, m3), x));
  }

  /** The other side `d` of `node` is higher by two. Either the tree is settled or the place above has shrunk. */
  method RemoveTurn(node: Node, root: Node, d: Dir, ghost s: set<Node>, ghost x: Tree, ghost up: Path, ghost b: Tree, ghost order: seq<Node>)
    returns (trav: Node, done: bool, ghost v: Tree)
    requires d != P && Stands(s, root, Mk(d, b, node, 2 * Sign(d), x), up, order) && Shrunk(x, Step(up, Opposite(d), node, Sign(d), b))
    modifies s
    ensures Stands(s, root, v, up, order) && v.Branch? && v.node == trav
    ensures if done then AVL(Zip(v, up)) else Shrunk(v, up)
  {
    hide At, Mk, Snap, Inorder, Zip, AVL, AvlPath, Shrunk;
    ghost var m := 2 * Sign(d);
    Taller(x, up, Opposite(d), node, b);
    ghost var near, far := Near(d, b), Far(d, b);
    HereAt(Snap(s), d, b, node, m, x, up);
    DownAt(Snap(s), d, b, node, m, x, up);
    Around(s, b, Step(up, d, node, m, x));
    SnapAll(s);
    MkSides(d, b);
    var tmp := node.Child(d);
    if Sign(d) * tmp.mark >= 0 {
      done, v := RemoveSingle(node, tmp, root, d, s, x, up, near, b.mark, far, order);
      trav := tmp;
    } else {
      done := false;
      trav, v := RemoveDouble(node, tmp, root, d, s, x, up, near, b.mark, far, order);
    }
  }

  /** What is higher by two is not empty. */
  lemma Taller(x: Tree, up: Path, o: Dir, p: Node, b: Tree)
    requires o != P && Shrunk(x, Step(up, o, p, -Sign(o), b))
    ensures b.Branch? && AVL(b) && -1 <= b.mark <= 1
  {
  }

  lemma ShrunkMark(x: Tree, z: Path)
    requires Shrunk(x, z) && z.Step?
    ensures z.side != P && (z.mark == 0 || z.mark == Sign(z.side) || z.mark == -Sign(z.side))
  {
  }

  lemma ShrunkTop(x: Tree, z: Path)
    requires Shrunk(x, z) && z.Top?
    ensures AVL(Zip(x, z))
  {
  }

  /** The loop of avl_rem. */
  method RemoveFixup(trav0: Node, dir0: Dir, root: Node, ghost s: set<Node>, ghost x0: Tree, ghost z0: Path) returns (ghost t: Tree)
    requires At(Snap(s), x0, z0) && Shrunk(x0, z0) && trav0 == z0.Holder() && dir0 == z0.Side() && Base(z0) == root
    modifies s
    ensures At(Snap(s), t, Top(root)) && AVL(t) && Inorder(t) == Inorder(Zip(x0, z0))
  {
    hide At, Mk, Snap, Inorder, Zip, AVL, AvlPath, Shrunk;
    var trav, dir := trav0, dir0;
    ghost var x, z, order := x0, z0, Inorder(Zip(x0, z0));
    Around(s, x, z);
    while dir != P
      invariant Stands(s, root, x, z, order) && Shrunk(x, z) && Sided(z)
      invariant trav == z.Holder() && dir == z.Side() && trav in s
      decreases Depth(z)
    {
      Around(s, x, z);
      ShrunkMark(x, z);
      ghost var m, b, up := z.mark, z.sibling, z.up;
      var b1 := trav.mark - Sign(dir);
      DownAt(Snap(s), dir, x, trav, m, b, up);
      BalanceInorder(dir, x, trav, m, b1, b, up);
      Paint(trav, b1, s, dir, x, m, b, up);
      ghost var v := Mk(dir, x, trav, b1, b);
      ParentOf(dir, x, trav, b1, b);
      MkBack(dir, x, trav, b1, b);
      if b1 != 0 {
        var done := true;
        if b1 < -1 {
          trav, done, v := RemoveTurn(trav, root, L, s, x, up, b, order);
        } else if b1 > 1 {
          trav, done, v := RemoveTurn(trav, root, R, s, x, up, b, order);
        } else {
          ShrinksLevel(x, z);
        }
        if done {
          Settled(s, root, v, up, order);
          t := Zip(v, up);
          return;
        }
      } else {
        ShrinksOn(x, z);
      }
      Around(s, v, up);
      x, z := v, up;
      dir := trav.pdir;
      trav := trav.par;
    }
    ShrunkTop(x, z);
    Settled(s, root, x, z, order);
    t := Zip(x, z);
  }

  // ----- the tree -----

  /** A new leaf is a subtree that has grown by one. */
  lemma FreshLeaf(z: Path, node: Node)
    requires AVL(Zip(Leaf, z)) && Sided(z)
    ensures Grown(Branch(Leaf, node, 0, Leaf), z)
  {
    UnzipAvl(Leaf, z);
  }

  /** What the hanging of a node makes of the tree. */
  lemma HungWhole(s: set<Node>, node: Node, z: Path)
    requires At(Snap(s), Leaf, z) && node !in s && node.left == null && node.right == null && node.mark == 0
    requires Sorted(Inorder(Zip(Leaf, z))) && Below(LeftOf(z), node.key) && Above(RightOf(z), node.key) && AVL(Zip(Leaf, z))
    ensures var leaf, h := Branch(Leaf, node, 0, Leaf), Snap(s + {node});
            && z.Holder() in h && At(FixCells(h, z.Holder(), node, z.Side()), leaf, z) && Grown(leaf, z)
            && Sorted(Inorder(Zip(leaf, z))) && Nodes(Zip(leaf, z)) == Nodes(Zip(Leaf, z)) + {node}
  {
    hide At, Sorted, Inorder, Below, Above, Zip, Nodes, PathNodes, AVL, AvlPath, Grown, Snap, FixCells;
    SnapAll(s);
    SnapAll(s + {node});
    NodesAt(Snap(s), Leaf, z);
    PlaceOfHolder(Snap(s), Leaf, z);
    SameAt(Snap(s), Snap(s + {node}), Leaf, z);
    HangAll(Snap(s + {node}), node, z);
    FreshLeaf(z, node);
  }

  /**
   * avl_ins does not hand the balance of a replaced node on. The tree is in balance afterwards exactly when the two
   * balances were the same before, which a caller can compare.
   */
  lemma ReplacedBalance(t: Tree, z: Path, node: Node, m: int)
    requires AVL(Zip(t, z)) && Sided(z) && t.Branch?
    ensures AVL(Zip(t.(node := node, mark := m), z)) <==> m == t.mark
  {
    hide AVL, Zip, AvlPath, Height;
    UnzipAvl(t, z);
    var u := t.(node := node, mark := m);
    OneBalance(t, u);
    if m == t.mark {
      ZipAvl(u, z);
    } else if AVL(Zip(u, z)) {
      UnzipAvl(u, z);
    }
  }

  /** The balance of a node is that of its two sides. */
  lemma OneBalance(t: Tree, u: Tree)
    requires AVL(t) && t.Branch? && u.Branch? && u.left == t.left && u.right == t.right
    ensures Height(u) == Height(t) && (AVL(u) <==> u.mark == t.mark)
  {
  }

  /** For instance: a node of balance 0, as avl_ninit leaves it, in the place of one with a right child only. */
  lemma BalanceLost(n: Node, c: Node, node: Node)
    ensures var t := Branch(Leaf, n, 1, Branch(Leaf, c, 0, Leaf)); AVL(t) && !AVL(t.(node := node, mark := 0))
  {
    var r := Branch(Leaf, c, 0, Leaf);
    assert Height(Leaf) == 0;
    assert AVL(r) && Height(r) == 1;
  }

  /** The whole of a replacement, as far as it does not depend on the fields. */
  lemma ReplacedWhole(s: set<Node>, t: Tree, z: Path, node: Node)
    requires At(Snap(s), t, z) && t.Branch? && s == Nodes(Zip(t, z)) + {Base(z)} && node !in s && t.node.key == node.key
    requires Sorted(Inorder(Zip(t, z))) && AVL(Zip(t, z))
    ensures At(Snap(s + {node}), t, z) && t.node in s && t.node != Base(z) && node !in Nodes(t) && node !in PathNodes(z)
    ensures t.node.mark == t.mark
    ensures var u := Zip(t.(node := node, mark := node.mark), z);
            Sorted(Inorder(u)) && Nodes(u) == Nodes(Zip(t, z)) - {t.node} + {node} && (AVL(u) <==> node.mark == t.mark)
  {
    hide At, Sorted, Inorder, Zip, Nodes, PathNodes, AVL, Snap, Distinct, DistinctPath;
    SnapAll(s);
    SnapAll(s + {node});
    NodesAt(Snap(s), t, z);
    Around(s, t, z);
    PlaceOfHolder(Snap(s), t, z);
    ChildrenApart(t);
    SameAt(Snap(s), Snap(s + {node}), t, z);
    ReplacedOrder(t, z, node, node.mark);
    ReplacedBalance(t, z, node, node.mark);
  }

  /** What is left after taking a node out no longer speaks of it. */
  lemma OutNodes(s: set<Node>, t: Tree, z: Path, trav: Node, dir: Dir, x: Tree, y: Path)
    requires Out(s, t, z, trav, dir, x, y) && Sorted(Inorder(Zip(Removed(t, t.mark), z)))
    requires Nodes(Zip(Removed(t, t.mark), z)) == Nodes(Zip(t, z)) - {t.node} && s == Nodes(Zip(t, z)) + {Base(z)} && t.node != Base(z)
    ensures Nodes(Zip(x, y)) == Nodes(Zip(t, z)) - {t.node} && Sorted(Inorder(Zip(x, y))) && At(Snap(s - {t.node}), x, y)
    ensures trav == y.Holder() && dir == y.Side() && Base(y) == Base(z) && Shrunk(x, y)
  {
    hide At, Sorted, Inorder, Zip, AVL, Shrunk, Snap;
    SameMembers(Zip(x, y), Zip(Removed(t, t.mark), z));
    ZipNodes(x, y);
    SnapAll(s);
    SnapAll(s - {t.node});
    SameAt(Snap(s), Snap(s - {t.node}), x, y);
  }

  /** struct avltree. */
  class AvlTree {
    const root: Node
    ghost var nodes: set<Node>
    ghost var tree: Tree

    /** A search tree, whatever its balances. */
    ghost predicate Ordered()
      reads this, nodes
    {
      nodes == Nodes(tree) + {root} && At(Snap(nodes), tree, Top(root)) && Sorted(Inorder(tree))
    }

    ghost predicate Valid()
      reads this, nodes
    {
      Ordered() && AVL(tree)
    }

    /** avl_init */
    constructor ()
      ensures Valid() && tree == Leaf && fresh(nodes)
    {
      var r := new Node(0);
      root := r;
      tree := Leaf;
      nodes := {r};
    }

    /** avl_lkup */
    method Lookup(key: int) returns (r: Node?)
      requires Ordered()
      ensures r == null ==> forall n :: n in Nodes(tree) ==> n.key != key
      ensures r != null ==> r in Nodes(tree) && r.key == key
    {
      hide At, Sorted, Inorder, Below, Above;
      var n, dir, found, sub, z, steps := FindLoc(root, key, nodes, tree);
      InZip(sub, z);
      if found {
        r := n;
      } else {
        KeyAbsent(z, key);
        r := null;
      }
    }

    /** A node with the key can be hung on side `dir` of `loc`, which `z` leads to. */
    ghost predicate Place(loc: Node, dir: Dir, key: int, z: Path)
      reads this, nodes
    {
      && At(Snap(nodes), Leaf, z) && Zip(Leaf, z) == tree && Base(z) == root && loc == z.Holder() && dir == z.Side()
      && Below(LeftOf(z), key) && Above(RightOf(z), key)
    }

    /** avl_lkup with `rdir`: the node with the key, or the place for one. */
    method LookupLoc(key: int) returns (loc: Node, dir: Dir, found: bool, ghost z: Path)
      requires Valid()
      ensures found ==> loc in Nodes(tree) && loc.key == key
      ensures !found ==> Place(loc, dir, key, z) && forall n :: n in Nodes(tree) ==> n.key != key
    {
      hide At, Sorted, Inorder, Below, Above, AVL;
      ghost var sub, steps;
      loc, dir, found, sub, z, steps := FindLoc(root, key, nodes, tree);
      InZip(sub, z);
      if !found {
        KeyAbsent(z, key);
      }
    }

    /** avl_ins with `loc` and `atdir`: no search, and no comparison. */
    method InsertAt(node: Node, loc: Node, atdir: Dir, ghost z: Path)
      requires Valid() && node !in nodes && node.left == null && node.right == null && node.mark == 0
      requires Place(loc, atdir, node.key, z)
      modifies this, nodes, node
      ensures Valid() && nodes == old(nodes) + {node} && Nodes(tree) == old(Nodes(tree)) + {node}
      ensures forall n :: n in old(Nodes(tree)) ==> n.key != node.key
    {
      hide At, Sorted, Inorder, Below, Above, AVL;
      PlaceOfHolder(Snap(nodes), Leaf, z);
      KeyAbsent(z, node.key);
      Hang(loc, node, atdir, z);
    }

    /**
     * avl_ins: a node with a key of its own joins the tree; otherwise it takes the place of the node with its key, and
     * the balances stay right only if the two nodes had the same one.
     */
    method Insert(node: Node) returns (r: Node?)
      requires Valid() && node !in nodes && node.left == null && node.right == null && node.mark == 0
      modifies this, nodes, node
      ensures Ordered() && nodes == old(nodes) + {node} - {r}
      ensures r == null ==>
        Valid() && Nodes(tree) == old(Nodes(tree)) + {node} && forall n :: n in old(Nodes(tree)) ==> n.key != node.key
      ensures r != null ==> r in old(Nodes(tree)) && r.key == node.key && Nodes(tree) == old(Nodes(tree)) - {r} + {node}
      ensures r != null ==> r.left == null && r.right == null && r.par == null && (Valid() <==> old(r.mark) == 0)
    {
      hide At, Sorted, Inorder, Below, Above, AVL;
      var n, dir, found, sub, z, steps := FindLoc(root, node.key, nodes, tree);
      PlaceOfHolder(Snap(nodes), sub, z);
      InZip(sub, z);
      if found {
        Replace(n, node, sub, z);
        r := n;
      } else {
        KeyAbsent(z, node.key);
        Hang(n, node, dir, z);
        r := null;
      }
    }

    method Hang(n: Node, node: Node, dir: Dir, ghost z: Path)
      requires Valid() && node !in nodes && node.left == null && node.right == null && node.mark == 0
      requires At(Snap(nodes), Leaf, z) && Zip(Leaf, z) == tree && Base(z) == root && n == z.Holder() && dir == z.Side()
      requires Below(LeftOf(z), node.key) && Above(RightOf(z), node.key)
      modifies this, nodes, node
      ensures Valid() && nodes == old(nodes) + {node} && Nodes(tree) == old(Nodes(tree)) + {node}
    {
      hide At, Sorted, Inorder, Below, Above, Zip, Nodes, AVL, AvlPath, Grown, Snap, FixCells, LeftOf, RightOf;
      ghost var s, leaf := nodes + {node}, Branch(Leaf, node, 0, Leaf);
      HungWhole(nodes, node, z);
      SnapAll(s);
      Fix(n, node, dir, s);
      ghost var t := InsertFixup(node, root, s, leaf, z);
      SameMembers(t, Zip(leaf, z));
      tree, nodes := t, s;
    }

    method Replace(n: Node, node: Node, ghost sub: Tree, ghost z: Path)
      requires Valid() && node !in nodes && node.key == n.key
      requires At(Snap(nodes), sub, z) && Zip(sub, z) == tree && Base(z) == root && sub.Branch? && sub.node == n && Sided(z)
      modifies this, nodes, node
      ensures Ordered() && nodes == old(nodes) - {n} + {node} && Nodes(tree) == old(Nodes(tree)) - {n} + {node}
      ensures Valid() <==> old(n.mark) == old(node.mark)
      ensures n.left == null && n.right == null && n.par == null
    {
      hide At, Sorted, Inorder, Zip, Nodes, PathNodes, AVL, Snap, Apart;
      ghost var s, u := nodes + {node}, sub.(node := node, mark := node.mark);
      ReplacedWhole(nodes, sub, z, node);
      TakeOver(n, node, s, sub, z);
      WholeAt(Snap(s), u, z);
      SnapAt(s, s - {n}, Zip(u, z), root);
      tree, nodes := Zip(u, z), s - {n};
      n.Clear();
    }

    /** avl_rem */
    method Remove(node: Node)
      requires Valid() && node in Nodes(tree)
      modifies this, nodes
      ensures Valid() && nodes == old(nodes) - {node} && Nodes(tree) == old(Nodes(tree)) - {node}
      ensures node.left == null && node.right == null && node.par == null && node.mark == 0
    {
      hide At, Sorted, Inorder, Zip, Nodes, AVL, Snap, Out, Shrunk;
      ghost var sub, z := PlaceOf(Snap(nodes), tree, Top(root), node);
      ZipTop(tree, root);
      NodesAt(Snap(nodes), sub, z);
      PlaceOfHolder(Snap(nodes), sub, z);
      ZipRemoved(sub, sub.mark, z);
      var trav, dir, x, y := TakeOut(node, nodes, sub, z);
      OutNodes(nodes, sub, z, trav, dir, x, y);
      nodes := nodes - {node};
      node.Clear();
      tree := RemoveFixup(trav, dir, root, nodes, x, y);
      SameMembers(tree, Zip(x, y));
    }
  }
}
