/**
 * Parent-linked binary trees, as rbtree.h, avl.h and splay.h lay them out: three pointers a node, the side it
 * hangs on, and a sentinel whose parent pointer is the root of the tree. The three headers repeat this layout,
 * `xx_fix`, `xx_findloc` and the single rotations; `mark` stands for the colour of rbtree.h and the balance of
 * avl.h. Functions the headers write out for either side are one function here with the side as a parameter.
 *
 * A tree is described by a value that names its nodes, and a position in it by the subtree there and the path
 * above it. The fields of the nodes are compared with that description through a snapshot of them.
 */
module LinkedTree {

  datatype Dir = L | P | R

  function Opposite(d: Dir): Dir {
    match d case L => R case P => P case R => L
  }

  /** struct rbnode, struct anode and struct stnode. */
  class Node {
    const key: int
    var left: Node?
    var par: Node?
    var right: Node?
    var pdir: Dir
    var mark: int

    /** xx_ninit */
    constructor (key: int)
      ensures this.key == key && left == null && par == null && right == null && pdir == P && mark == 0
    {
      this.key := key;
      left, par, right := null, null, null;
      pdir := P;
      mark := 0;
    }

    /** What every header does to a node that leaves its tree. */
    method Clear()
      modifies this
      ensures left == null && par == null && right == null && pdir == P && mark == 0
    {
      left, par, right := null, null, null;
      pdir := P;
      mark := 0;
    }

    /** `p[dir]` */
    function Child(dir: Dir): (c: Node?)
      reads this
    {
      match dir case L => left case P => par case R => right
    }
  }

  // ----- trees and places in them -----

  datatype Tree = Leaf | Branch(left: Tree, node: Node, mark: int, right: Tree)

  /** The way from a subtree up to the sentinel: the subtree is on side `side` of the innermost node. */
  datatype Path = Top(root: Node) | Step(up: Path, side: Dir, node: Node, mark: int, sibling: Tree) {

    /** The node the subtree hangs on, and the side. */
    function Holder(): Node {
      if Top? then root else node
    }

    function Side(): Dir {
      if Top? then P else side
    }
  }

  /** A branch with `near` on side `d`. */
  function Mk(d: Dir, near: Tree, n: Node, m: int, far: Tree): Tree {
    if d == R then Branch(far, n, m, near) else Branch(near, n, m, far)
  }

  function Zip(t: Tree, z: Path): Tree
    decreases z
  {
    if z.Top? then t else Zip(Mk(z.side, t, z.node, z.mark, z.sibling), z.up)
  }

  function Nodes(t: Tree): set<Node> {
    if t.Leaf? then {} else Nodes(t.left) + {t.node} + Nodes(t.right)
  }

  function PathNodes(z: Path): set<Node> {
    if z.Top? then {z.root} else PathNodes(z.up) + {z.node} + Nodes(z.sibling)
  }

  /** The sentinel at the end of a path. */
  function Base(z: Path): Node {
    if z.Top? then z.root else Base(z.up)
  }

  lemma {:induction false} BaseIn(z: Path)
    ensures Base(z) in PathNodes(z)
  {
    if z.Step? { BaseIn(z.up); }
  }

  predicate Sided(z: Path) {
    z.Step? ==> z.side != P && Sided(z.up)
  }

  lemma {:induction false} ZipNodes(t: Tree, z: Path)
    ensures Nodes(t) + PathNodes(z) == Nodes(Zip(t, z)) + {Base(z)}
    decreases z
  {
    if z.Step? { ZipNodes(Mk(z.side, t, z.node, z.mark, z.sibling), z.up); }
  }

  predicate Distinct(t: Tree) {
    t.Branch? ==>
      && t.node !in Nodes(t.left) && t.node !in Nodes(t.right) && Nodes(t.left) !! Nodes(t.right)
      && Distinct(t.left) && Distinct(t.right)
  }

  predicate DistinctPath(z: Path) {
    z.Step? ==>
      && z.side != P
      && z.node !in PathNodes(z.up) && z.node !in Nodes(z.sibling) && PathNodes(z.up) !! Nodes(z.sibling)
      && Distinct(z.sibling) && DistinctPath(z.up)
  }

  predicate Apart(t: Tree, z: Path) {
    Distinct(t) && DistinctPath(z) && Nodes(t) !! PathNodes(z)
  }

  // ----- snapshots of the fields -----

  datatype Cell = Cell(left: Node?, par: Node?, right: Node?, pdir: Dir, mark: int) {
    function Child(dir: Dir): Node? {
      match dir case L => left case P => par case R => right
    }

    function Put(dir: Dir, c: Node?): Cell {
      match dir case L => this.(left := c) case P => this.(par := c) case R => this.(right := c)
    }
  }

  type Cells = map<Node, Cell>

  ghost function Snap(s: set<Node>): Cells
    reads s
  {
    map n | n in s :: Cell(n.left, n.par, n.right, n.pdir, n.mark)
  }

  lemma SnapAll(s: set<Node>)
    ensures Snap(s).Keys == s
    ensures forall n :: n in s ==> Snap(s)[n] == Cell(n.left, n.par, n.right, n.pdir, n.mark)
  {
  }

  /** The nodes below the pointer `p`, on side `dir` of `par`, are linked as `t` says. */
  ghost predicate Linked(h: Cells, t: Tree, par: Node, dir: Dir, p: Node?) {
    match t
    case Leaf => p == null
    case Branch(l, n, m, r) =>
      && p == n && n in h && h[n].par == par && h[n].pdir == dir && h[n].mark == m
      && Linked(h, l, n, L, h[n].left) && Linked(h, r, n, R, h[n].right)
  }

  /** The nodes on the path are linked as `z` says, all but the pointer to the subtree. */
  ghost predicate LinkedPath(h: Cells, z: Path) {
    && z.Holder() in h
    && match z
       case Top(root) => h[root].pdir == P
       case Step(up, d, n, m, sib) =>
         && LinkedPath(h, up) && h[up.Holder()].Child(up.Side()) == n
         && h[n].par == up.Holder() && h[n].pdir == up.Side() && h[n].mark == m
         && Linked(h, sib, n, Opposite(d), h[n].Child(Opposite(d)))
  }

  /** The snapshot shows the tree `Zip(t, z)`. */
  ghost predicate At(h: Cells, t: Tree, z: Path) {
    Apart(t, z) && LinkedPath(h, z) && Linked(h, t, z.Holder(), z.Side(), h[z.Holder()].Child(z.Side()))
  }

  /** What xx_fix does to the fields. */
  function FixCells(h: Cells, par: Node, cld: Node?, dir: Dir): (r: Cells)
    requires par in h
    ensures r.Keys == h.Keys
  {
    var h1 := h[par := h[par].Put(dir, cld)];
    if cld == null || cld !in h then h1 else h1[cld := h1[cld].(pdir := dir, par := par)]
  }

  /** xx_fix */
  method Fix(par: Node, cld: Node?, dir: Dir, ghost s: set<Node>)
    requires par in s && (cld != null ==> cld in s)
    modifies par, cld
    ensures Snap(s) == FixCells(old(Snap(s)), par, cld, dir)
  {
    match dir {
      case L => par.left := cld;
      case P => par.par := cld;
      case R => par.right := cld;
    }
    if cld != null {
      cld.pdir := dir;
      cld.par := par;
    }
  }

  // ----- frames -----

  lemma {:induction false} SameTree(h: Cells, k: Cells, t: Tree, par: Node, dir: Dir, p: Node?)
    requires Linked(h, t, par, dir, p) && forall n :: n in Nodes(t) ==> n in h && n in k && h[n] == k[n]
    ensures Linked(k, t, par, dir, p)
  {
    if t.Branch? {
      SameTree(h, k, t.left, t.node, L, h[t.node].left);
      SameTree(h, k, t.right, t.node, R, h[t.node].right);
    }
  }

  /** Two snapshots of a node differ in the pointer on side `d` at most. */
  predicate SameBut(a: Cell, b: Cell, d: Dir) {
    a.pdir == b.pdir && a.mark == b.mark && (d != L ==> a.left == b.left) && (d != P ==> a.par == b.par) && (d != R ==> a.right == b.right)
  }

  /** A path does not speak of the pointer to its subtree. */
  lemma {:induction false} SamePath(h: Cells, k: Cells, z: Path)
    requires LinkedPath(h, z) && DistinctPath(z)
    requires forall n :: n in PathNodes(z) ==> n in k && n in h && (n != z.Holder() ==> h[n] == k[n])
    requires SameBut(h[z.Holder()], k[z.Holder()], z.Side())
    ensures LinkedPath(k, z)
  {
    if z.Step? {
      SameTree(h, k, z.sibling, z.node, Opposite(z.side), h[z.node].Child(Opposite(z.side)));
      SamePath(h, k, z.up);
    }
  }

  lemma {:induction false} LinkedNodes(h: Cells, t: Tree, par: Node, dir: Dir, p: Node?)
    requires Linked(h, t, par, dir, p)
    ensures Nodes(t) <= h.Keys && (p != null <==> t.Branch?) && (t.Branch? ==> p == t.node)
  {
    if t.Branch? {
      LinkedNodes(h, t.left, t.node, L, h[t.node].left);
      LinkedNodes(h, t.right, t.node, R, h[t.node].right);
    }
  }

  lemma {:induction false} PathNodesLinked(h: Cells, z: Path)
    requires LinkedPath(h, z)
    ensures PathNodes(z) <= h.Keys
  {
    if z.Step? {
      LinkedNodes(h, z.sibling, z.node, Opposite(z.side), h[z.node].Child(Opposite(z.side)));
      PathNodesLinked(h, z.up);
    }
  }

  /** Hanging the subtree at `cld` elsewhere keeps what is below it. */
  lemma Rehang(h: Cells, t: Tree, par0: Node, dir0: Dir, par: Node, cld: Node?, dir: Dir)
    requires Linked(h, t, par0, dir0, cld) && Distinct(t) && par in h && par !in Nodes(t)
    ensures Linked(FixCells(h, par, cld, dir), t, par, dir, cld)
  {
    var k := FixCells(h, par, cld, dir);
    LinkedNodes(h, t, par0, dir0, cld);
    if t.Branch? {
      SameTree(h, k, t.left, t.node, L, h[t.node].left);
      SameTree(h, k, t.right, t.node, R, h[t.node].right);
    }
  }

  lemma LinkedMk(h: Cells, d: Dir, near: Tree, n: Node, m: int, far: Tree, par: Node, dir: Dir, p: Node?)
    requires d != P
    ensures Linked(h, Mk(d, near, n, m, far), par, dir, p) <==>
      && p == n && n in h && h[n].par == par && h[n].pdir == dir && h[n].mark == m
      && Linked(h, near, n, d, h[n].Child(d)) && Linked(h, far, n, Opposite(d), h[n].Child(Opposite(d)))
  {
  }

  lemma ApartMk(d: Dir, near: Tree, n: Node, m: int, far: Tree)
    ensures Nodes(Mk(d, near, n, m, far)) == Nodes(near) + {n} + Nodes(far)
    ensures Distinct(Mk(d, near, n, m, far)) <==>
      n !in Nodes(near) && n !in Nodes(far) && Nodes(near) !! Nodes(far) && Distinct(near) && Distinct(far)
  {
  }

  // ----- single rotations -----

  function Root(t: Tree): Node? {
    if t.Leaf? then null else t.node
  }

  /** The pieces of a rotation share no node. */
  predicate Pieces(a: Tree, x: Node, b: Tree, y: Node, c: Tree, z: Path) {
    && x != y && x !in Nodes(a) && x !in Nodes(b) && x !in Nodes(c) && x !in PathNodes(z)
    && y !in Nodes(a) && y !in Nodes(b) && y !in Nodes(c) && y !in PathNodes(z)
    && Nodes(a) !! Nodes(b) && Nodes(a) !! Nodes(c) && Nodes(b) !! Nodes(c)
    && Nodes(a) !! PathNodes(z) && Nodes(b) !! PathNodes(z) && Nodes(c) !! PathNodes(z)
    && Distinct(a) && Distinct(b) && Distinct(c) && DistinctPath(z)
  }

  lemma PiecesApart(d: Dir, a: Tree, x: Node, mx: int, b: Tree, y: Node, my: int, c: Tree, z: Path)
    requires Apart(Mk(d, a, x, mx, Mk(d, b, y, my, c)), z)
    ensures Pieces(a, x, b, y, c, z)
  {
    hide Mk, Nodes, PathNodes, Distinct, DistinctPath;
    ApartMk(d, a, x, mx, Mk(d, b, y, my, c));
    ApartMk(d, b, y, my, c);
  }

  lemma ApartPieces(d: Dir, a: Tree, x: Node, mx: int, b: Tree, y: Node, my: int, c: Tree, z: Path)
    requires Pieces(a, x, b, y, c, z)
    ensures Apart(Mk(d, Mk(d, a, x, mx, b), y, my, c), z)
  {
    hide Mk, Nodes, PathNodes, Distinct, DistinctPath;
    ApartMk(d, Mk(d, a, x, mx, b), y, my, c);
    ApartMk(d, a, x, mx, b);
  }

  /** What the fields show of the pieces before a rotation. */
  ghost predicate Before(h: Cells, d: Dir, a: Tree, x: Node, mx: int, b: Tree, y: Node, my: int, c: Tree, z: Path) {
    && d != P && Pieces(a, x, b, y, c, z) && {x, y} + Nodes(a) + Nodes(b) + Nodes(c) + PathNodes(z) <= h.Keys
    && z.Holder() in PathNodes(z) && h[z.Holder()].Child(z.Side()) == x
    && h[x].Child(Opposite(d)) == y && h[y].Child(d) == Root(b) && h[x].par == z.Holder() && h[x].pdir == z.Side()
    && h[x].mark == mx && h[y].mark == my && (b.Branch? ==> b.node in Nodes(b))
    && Linked(h, a, x, d, h[x].Child(d)) && Linked(h, b, y, d, Root(b))
    && Linked(h, c, y, Opposite(d), h[y].Child(Opposite(d))) && LinkedPath(h, z)
  }

  lemma BeforeRotate(h: Cells, d: Dir, a: Tree, x: Node, mx: int, b: Tree, y: Node, my: int, c: Tree, z: Path)
    requires d != P && At(h, Mk(d, a, x, mx, Mk(d, b, y, my, c)), z)
    ensures Before(h, d, a, x, mx, b, y, my, c, z)
  {
    hide Mk, Linked, Apart;
    var holder, side := z.Holder(), z.Side();
    var p := h[holder].Child(side);
    PiecesApart(d, a, x, mx, b, y, my, c, z);
    ApartMk(d, a, x, mx, Mk(d, b, y, my, c));
    ApartMk(d, b, y, my, c);
    LinkedNodes(h, Mk(d, a, x, mx, Mk(d, b, y, my, c)), holder, side, p);
    PathNodesLinked(h, z);
    LinkedMk(h, d, a, x, mx, Mk(d, b, y, my, c), holder, side, p);
    LinkedMk(h, d, b, y, my, c, x, Opposite(d), h[x].Child(Opposite(d)));
    LinkedRoot(h, b, y, d, h[y].Child(d));
  }

  /** The fields of one node after a call of xx_fix. */
  lemma FixAt(h: Cells, par: Node, cld: Node?, dir: Dir, m: Node)
    requires par in h && m in h && par != cld
    ensures FixCells(h, par, cld, dir)[m] ==
      if m == par then h[m].Put(dir, cld) else if m == cld then h[m].(pdir := dir, par := par) else h[m]
  {
  }

  /** A call of xx_fix keeps a tree that has neither of the two nodes. */
  lemma FixTree(h: Cells, par: Node, cld: Node?, dir: Dir, t: Tree, par0: Node, dir0: Dir, p: Node?)
    requires par in h && Linked(h, t, par0, dir0, p) && par !in Nodes(t) && (cld != null ==> cld !in Nodes(t))
    ensures Linked(FixCells(h, par, cld, dir), t, par0, dir0, p)
  {
    LinkedNodes(h, t, par0, dir0, p);
    SameTree(h, FixCells(h, par, cld, dir), t, par0, dir0, p);
  }

  /** Three of them. */
  lemma FixThrice(h: Cells, p1: Node, c1: Node?, d1: Dir, p2: Node, c2: Node?, d2: Dir, p3: Node, c3: Node?, d3: Dir,
      t: Tree, par0: Node, dir0: Dir, p: Node?)
    requires p1 in h && p2 in h && p3 in h && Linked(h, t, par0, dir0, p)
    requires p1 !in Nodes(t) && p2 !in Nodes(t) && p3 !in Nodes(t)
    requires (c1 != null ==> c1 !in Nodes(t)) && (c2 != null ==> c2 !in Nodes(t)) && (c3 != null ==> c3 !in Nodes(t))
    ensures Linked(FixCells(FixCells(FixCells(h, p1, c1, d1), p2, c2, d2), p3, c3, d3), t, par0, dir0, p)
  {
    hide FixCells, Linked, Nodes;
    FixTree(h, p1, c1, d1, t, par0, dir0, p);
    FixTree(FixCells(h, p1, c1, d1), p2, c2, d2, t, par0, dir0, p);
    FixTree(FixCells(FixCells(h, p1, c1, d1), p2, c2, d2), p3, c3, d3, t, par0, dir0, p);
  }

  /** The three calls of xx_fix of a rotation, on the fields. */
  lemma RotateAt(h: Cells, d: Dir, a: Tree, x: Node, mx: int, b: Tree, y: Node, my: int, c: Tree, z: Path)
    requires Before(h, d, a, x, mx, b, y, my, c, z)
    ensures var h1 := FixCells(h, x, Root(b), Opposite(d));
            var h2 := FixCells(h1, z.Holder(), y, z.Side());
            At(FixCells(h2, y, x, d), Mk(d, Mk(d, a, x, mx, b), y, my, c), z)
  {
    hide Mk, Linked, LinkedPath, Apart, Nodes, PathNodes, Distinct, DistinctPath, FixCells;
    var holder, side, o := z.Holder(), z.Side(), Opposite(d);
    var h1 := FixCells(h, x, Root(b), o);
    var h2 := FixCells(h1, holder, y, side);
    var h3 := FixCells(h2, y, x, d);
    ApartPieces(d, a, x, mx, b, y, my, c, z);
    Rehang(h, b, y, d, x, Root(b), o);
    FixTree(h1, holder, y, side, b, x, o, Root(b));
    FixTree(h2, y, x, d, b, x, o, Root(b));
    FixThrice(h, x, Root(b), o, holder, y, side, y, x, d, a, x, d, h[x].Child(d));
    FixThrice(h, x, Root(b), o, holder, y, side, y, x, d, c, y, o, h[y].Child(o));
    forall n | n in h
      ensures h3[n] == if n == x || n == y || n == holder || n == Root(b) then h3[n] else h[n]
    {
      FixAt(h, x, Root(b), o, n);
      FixAt(h1, holder, y, side, n);
      FixAt(h2, y, x, d, n);
    }
    RotateFields(h, d, x, y, Root(b), holder, side);
    SamePath(h, h3, z);
    LinkedMk(h3, d, a, x, mx, b, y, d, x);
    LinkedMk(h3, d, Mk(d, a, x, mx, b), y, my, c, holder, side, y);
  }

  /** The fields of the three nodes afterwards. */
  lemma RotateFields(h: Cells, d: Dir, x: Node, y: Node, b: Node?, holder: Node, side: Dir)
    requires {x, y, holder} <= h.Keys && d != P && x != y && x != holder && y != holder && b != x && b != y && b != holder
    requires h[x].par == holder && h[x].pdir == side
    ensures var k := FixCells(FixCells(FixCells(h, x, b, Opposite(d)), holder, y, side), y, x, d);
      && k[x].par == y && k[x].pdir == d && k[x].mark == h[x].mark && k[x].Child(d) == h[x].Child(d) && k[x].Child(Opposite(d)) == b
      && k[y].par == holder && k[y].pdir == side && k[y].mark == h[y].mark && k[y].Child(d) == x
      && k[y].Child(Opposite(d)) == h[y].Child(Opposite(d)) && k[holder].Child(side) == y && SameBut(h[holder], k[holder], side)
  {
    hide FixCells;
    var k1 := FixCells(h, x, b, Opposite(d));
    var k2 := FixCells(k1, holder, y, side);
    FixAt(h, x, b, Opposite(d), x);
    FixAt(h, x, b, Opposite(d), y);
    FixAt(h, x, b, Opposite(d), holder);
    FixAt(k1, holder, y, side, x);
    FixAt(k1, holder, y, side, y);
    FixAt(k1, holder, y, side, holder);
    FixAt(k2, y, x, d, x);
    FixAt(k2, y, x, d, y);
    FixAt(k2, y, x, d, holder);
  }

  lemma LinkedRoot(h: Cells, t: Tree, par: Node, dir: Dir, p: Node?)
    requires Linked(h, t, par, dir, p)
    ensures p == Root(t) && (p != null ==> p in h && p in Nodes(t))
  {
  }

  // ----- moving about -----

  lemma ApartDown(d: Dir, near: Tree, n: Node, m: int, far: Tree, z: Path)
    requires d != P
    ensures Apart(Mk(d, near, n, m, far), z) <==> Apart(near, Step(z, d, n, m, far))
  {
    hide Mk, Nodes, Distinct;
    ApartMk(d, near, n, m, far);
  }

  /** Going down a side or back up changes nothing. */
  lemma DownAt(h: Cells, d: Dir, near: Tree, n: Node, m: int, far: Tree, z: Path)
    requires d != P
    ensures At(h, Mk(d, near, n, m, far), z) <==> At(h, near, Step(z, d, n, m, far))
  {
    hide Mk, Linked, Apart;
    ApartDown(d, near, n, m, far, z);
    if LinkedPath(h, z) {
      LinkedMk(h, d, near, n, m, far, z.Holder(), z.Side(), h[z.Holder()].Child(z.Side()));
    }
  }

  /** From a place to the other side of the node above. */
  lemma AcrossAt(h: Cells, d: Dir, x: Tree, up: Path, p: Node, m: int, b: Tree)
    requires d != P
    ensures At(h, x, Step(up, d, p, m, b)) <==> At(h, b, Step(up, Opposite(d), p, m, x))
    ensures At(h, x, Step(up, d, p, m, b)) <==> At(h, Mk(d, x, p, m, b), up)
  {
    hide At, Mk;
    DownAt(h, d, x, p, m, b, up);
    DownAt(h, Opposite(d), b, p, m, x, up);
    MkBack(d, x, p, m, b);
  }

  /** What the fields show at a place. */
  lemma HereAt(h: Cells, d: Dir, near: Tree, n: Node, m: int, far: Tree, z: Path)
    requires d != P && At(h, Mk(d, near, n, m, far), z)
    ensures n in h && h[n].par == z.Holder() && h[n].pdir == z.Side() && h[n].mark == m
    ensures h[n].Child(d) == Root(near) && h[n].Child(Opposite(d)) == Root(far)
    ensures z.Holder() in h && h[z.Holder()].Child(z.Side()) == n
    ensures n != z.Holder() && Nodes(Mk(d, near, n, m, far)) + PathNodes(z) <= h.Keys
  {
    hide Mk, Linked, LinkedPath;
    var t := Mk(d, near, n, m, far);
    ApartMk(d, near, n, m, far);
    assert z.Holder() in h by { PathNodesLinked(h, z); }
    LinkedMk(h, d, near, n, m, far, z.Holder(), z.Side(), h[z.Holder()].Child(z.Side()));
    LinkedRoot(h, near, n, d, h[n].Child(d));
    LinkedRoot(h, far, n, Opposite(d), h[n].Child(Opposite(d)));
    LinkedNodes(h, t, z.Holder(), z.Side(), n);
    PathNodesLinked(h, z);
  }

  /** Setting the mark of the node at the place. */
  lemma MarkAt(h: Cells, l: Tree, n: Node, m: int, r: Tree, z: Path, m2: int)
    requires At(h, Branch(l, n, m, r), z)
    ensures n in h && At(h[n := h[n].(mark := m2)], Branch(l, n, m2, r), z)
  {
    var k := h[n := h[n].(mark := m2)];
    LinkedNodes(h, Branch(l, n, m, r), z.Holder(), z.Side(), n);
    PathNodesLinked(h, z);
    SameTree(h, k, l, n, L, h[n].left);
    SameTree(h, k, r, n, R, h[n].right);
    SamePath(h, k, z);
  }

  lemma MarkMk(h: Cells, d: Dir, near: Tree, n: Node, m: int, far: Tree, z: Path, m2: int)
    requires d != P && At(h, Mk(d, near, n, m, far), z)
    ensures n in h && At(h[n := h[n].(mark := m2)], Mk(d, near, n, m2, far), z)
  {
    if d == R { MarkAt(h, far, n, m, near, z, m2); } else { MarkAt(h, near, n, m, far, z, m2); }
  }

  method SetMark(n: Node, m: int, ghost s: set<Node>)
    requires n in s
    modifies n
    ensures Snap(s) == old(Snap(s))[n := old(Snap(s))[n].(mark := m)]
  {
    n.mark := m;
  }

  // ----- the rotations as functions on the fields -----

  /** A single rotation: `y` rises over `x` and leaves its child `b` there. */
  function RotateCells(h: Cells, d: Dir, x: Node, y: Node, b: Node?, holder: Node, side: Dir): Cells
    requires x in h && y in h && holder in h
  {
    FixCells(FixCells(FixCells(h, x, b, Opposite(d)), holder, y, side), y, x, d)
  }

  /** The nodes of a double rotation are different ones. */
  predicate Different(g: Node, p: Node, n: Node, holder: Node, b: Node?, c: Node?) {
    && g != p && g != n && p != n && holder != g && holder != p && holder != n
    && b != g && b != p && b != n && b != holder && c != g && c != p && c != n && c != holder
    && (b != null ==> b != c)
  }

  lemma ZigZigCells(h: Cells, o: Dir, g: Node, p: Node, n: Node, b: Node?, c: Node?, holder: Node, side: Dir)
    requires {g, p, n, holder} <= h.Keys && o != P && Different(g, p, n, holder, b, c)
    ensures var k := FixCells(FixCells(h, g, c, Opposite(o)), p, b, Opposite(o));
            FixCells(FixCells(FixCells(k, holder, n, side), n, p, o), p, g, o)
            == RotateCells(RotateCells(h, o, g, p, c, holder, side), o, p, n, b, holder, side)
  {
    hide FixCells;
    var d := Opposite(o);
    var f1 := FixCells(h, g, c, d);
    var f2 := FixCells(f1, p, b, d);
    var f3 := FixCells(f2, holder, n, side);
    var f4 := FixCells(f3, n, p, o);
    var f5 := FixCells(f4, p, g, o);
    var r2 := FixCells(f1, holder, p, side);
    var r3 := FixCells(r2, p, g, o);
    var r4 := FixCells(r3, p, b, d);
    var r5 := FixCells(r4, holder, n, side);
    var r6 := FixCells(r5, n, p, o);
    forall m | m in h
      ensures f5[m] == r6[m]
    {
      FixAt(f1, p, b, d, m);
      FixAt(f2, holder, n, side, m);
      FixAt(f3, n, p, o, m);
      FixAt(f4, p, g, o, m);
      FixAt(f1, holder, p, side, m);
      FixAt(r2, p, g, o, m);
      FixAt(r3, p, b, d, m);
      FixAt(r4, holder, n, side, m);
      FixAt(r5, n, p, o, m);
    }
    assert f5 == r6;
  }

  lemma ZigZagCells(h: Cells, d: Dir, g: Node, p: Node, n: Node, b: Node?, c: Node?, holder: Node, side: Dir)
    requires {g, p, n, holder} <= h.Keys && d != P && Different(g, p, n, holder, b, c)
    ensures var k := FixCells(FixCells(h, g, c, d), p, b, Opposite(d));
            FixCells(FixCells(FixCells(k, holder, n, side), n, p, d), n, g, Opposite(d))
            == RotateCells(RotateCells(h, d, p, n, b, g, d), Opposite(d), g, n, c, holder, side)
  {
    hide FixCells;
    var o := Opposite(d);
    var f1 := FixCells(h, g, c, d);
    var f2 := FixCells(f1, p, b, o);
    var f3 := FixCells(f2, holder, n, side);
    var f4 := FixCells(f3, n, p, d);
    var f5 := FixCells(f4, n, g, o);
    var r1 := FixCells(h, p, b, o);
    var r2 := FixCells(r1, g, n, d);
    var r3 := FixCells(r2, n, p, d);
    var r4 := FixCells(r3, g, c, d);
    var r5 := FixCells(r4, holder, n, side);
    var r6 := FixCells(r5, n, g, o);
    forall m | m in h
      ensures f5[m] == r6[m]
    {
      FixAt(h, g, c, d, m);
      FixAt(f1, p, b, o, m);
      FixAt(f2, holder, n, side, m);
      FixAt(f3, n, p, d, m);
      FixAt(f4, n, g, o, m);
      FixAt(h, p, b, o, m);
      FixAt(r1, g, n, d, m);
      FixAt(r2, n, p, d, m);
      FixAt(r3, g, c, d, m);
      FixAt(r4, holder, n, side, m);
      FixAt(r5, n, g, o, m);
    }
    assert f5 == r6;
  }

  /** The order avl_zright and avl_zleft use comes to the same. */
  lemma ZigZagOrders(h: Cells, d: Dir, g: Node, p: Node, n: Node, b: Node?, c: Node?, holder: Node, side: Dir)
    requires {g, p, n, holder} <= h.Keys && d != P && Different(g, p, n, holder, b, c)
    ensures var k := FixCells(FixCells(h, g, c, d), p, b, Opposite(d));
            var l := FixCells(FixCells(h, p, b, Opposite(d)), g, c, d);
            FixCells(FixCells(FixCells(k, holder, n, side), n, p, d), n, g, Opposite(d))
            == FixCells(FixCells(FixCells(l, holder, n, side), n, g, Opposite(d)), n, p, d)
  {
    hide FixCells;
    var o := Opposite(d);
    FixesSwap(h, g, c, d, p, b, o);
    var k := FixCells(FixCells(h, g, c, d), p, b, o);
    var k3 := FixCells(k, holder, n, side);
    SidesSwap(k3, n, p, d, g);
  }

  lemma FixesSwap(h: Cells, g: Node, c: Node?, d: Dir, p: Node, b: Node?, o: Dir)
    requires {g, p} <= h.Keys && g != p && g != c && g != b && p != c && p != b && (b != null ==> b != c)
    ensures FixCells(FixCells(h, g, c, d), p, b, o) == FixCells(FixCells(h, p, b, o), g, c, d)
  {
    hide FixCells;
    forall m | m in h
      ensures FixCells(FixCells(h, g, c, d), p, b, o)[m] == FixCells(FixCells(h, p, b, o), g, c, d)[m]
    {
      FixAt(h, g, c, d, m);
      FixAt(FixCells(h, g, c, d), p, b, o, m);
      FixAt(h, p, b, o, m);
      FixAt(FixCells(h, p, b, o), g, c, d, m);
    }
  }

  lemma SidesSwap(h: Cells, n: Node, p: Node, d: Dir, g: Node)
    requires n in h && p != n && g != n && p != g && d != P
    ensures FixCells(FixCells(h, n, p, d), n, g, Opposite(d)) == FixCells(FixCells(h, n, g, Opposite(d)), n, p, d)
  {
    hide FixCells;
    var o := Opposite(d);
    forall m | m in h
      ensures FixCells(FixCells(h, n, p, d), n, g, o)[m] == FixCells(FixCells(h, n, g, o), n, p, d)[m]
    {
      FixAt(h, n, p, d, m);
      FixAt(FixCells(h, n, p, d), n, g, o, m);
      FixAt(h, n, g, o, m);
      FixAt(FixCells(h, n, g, o), n, p, d, m);
    }
  }

  lemma RootIn(t: Tree)
    ensures t.Branch? ==> Root(t) in Nodes(t)
  {
  }

  /** A double rotation with `n` on the same side of `p` as `p` of `g`: st_zrr for `o == R`, st_zll for `o == L`. */
  lemma ZigZigAt(h: Cells, o: Dir, e: Tree, g: Node, mg: int, c: Tree, p: Node, mp: int, b: Tree, n: Node, mn: int, a: Tree, z: Path)
    requires o != P && At(h, Mk(o, e, g, mg, Mk(o, c, p, mp, Mk(o, b, n, mn, a))), z)
    ensures {g, p, n, z.Holder()} <= h.Keys && h[g].par == z.Holder() && h[g].pdir == z.Side()
    ensures h[n].par == p && h[p].par == g && h[n].pdir == h[p].pdir == Opposite(o)
    ensures h[p].Child(o) == Root(c) && h[n].Child(o) == Root(b)
    ensures Different(g, p, n, z.Holder(), Root(b), Root(c)) && (b.Branch? ==> b.node in h) && (c.Branch? ==> c.node in h)
    ensures var k := FixCells(FixCells(h, g, Root(c), Opposite(o)), p, Root(b), Opposite(o));
            At(FixCells(FixCells(FixCells(k, z.Holder(), n, z.Side()), n, p, o), p, g, o),
               Mk(o, Mk(o, Mk(o, e, g, mg, c), p, mp, b), n, mn, a), z)
  {
    hide Mk, At, Linked, LinkedPath, Distinct, DistinctPath, Nodes, PathNodes, FixCells;
    var d := Opposite(o);
    var x := Mk(o, b, n, mn, a);
    ApartMk(o, b, n, mn, a);
    BeforeRotate(h, o, e, g, mg, c, p, mp, x, z);
    MkBack(o, e, g, mg, Mk(o, c, p, mp, x));
    MkBack(o, c, p, mp, x);
    DownAt(h, d, Mk(o, c, p, mp, x), g, mg, e, z);
    HereAt(h, o, c, p, mp, x, Step(z, d, g, mg, e));
    DownAt(h, d, x, p, mp, c, Step(z, d, g, mg, e));
    HereAt(h, o, b, n, mn, a, Step(Step(z, d, g, mg, e), d, p, mp, c));
    RotateAt(h, o, e, g, mg, c, p, mp, x, z);
    var h1 := RotateCells(h, o, g, p, Root(c), z.Holder(), z.Side());
    BeforeRotate(h1, o, Mk(o, e, g, mg, c), p, mp, b, n, mn, a, z);
    RotateAt(h1, o, Mk(o, e, g, mg, c), p, mp, b, n, mn, a, z);
    RootIn(b);
    RootIn(c);
    ZigZigCells(h, o, g, p, n, Root(b), Root(c), z.Holder(), z.Side());
  }

  /**
   * A double rotation with `n` on side `o` of `p` and `p` on the other side `d` of `g`: st_zlr for `d == L`,
   * st_zrl for `d == R`. avl_zright and avl_zleft exchange the first two calls of xx_fix, and the last two.
   */
  lemma ZigZagAt(h: Cells, d: Dir, a: Tree, p: Node, mp: int, b: Tree, n: Node, mn: int, c: Tree, g: Node, mg: int, e: Tree, z: Path)
    requires d != P && At(h, Mk(d, Mk(d, a, p, mp, Mk(d, b, n, mn, c)), g, mg, e), z)
    ensures {g, p, n, z.Holder()} <= h.Keys && h[g].par == z.Holder() && h[g].pdir == z.Side()
    ensures h[n].par == p && h[p].par == g && h[n].pdir == Opposite(d) && h[p].pdir == d
    ensures h[n].Child(d) == Root(b) && h[n].Child(Opposite(d)) == Root(c)
    ensures h[g].Child(d) == p && h[p].Child(Opposite(d)) == n
    ensures Different(g, p, n, z.Holder(), Root(b), Root(c)) && (b.Branch? ==> b.node in h) && (c.Branch? ==> c.node in h)
    ensures var t := Mk(d, Mk(d, a, p, mp, b), n, mn, Mk(d, c, g, mg, e));
            && (var k := FixCells(FixCells(h, g, Root(c), d), p, Root(b), Opposite(d));
                At(FixCells(FixCells(FixCells(k, z.Holder(), n, z.Side()), n, p, d), n, g, Opposite(d)), t, z))
            && (var k := FixCells(FixCells(h, p, Root(b), Opposite(d)), g, Root(c), d);
                At(FixCells(FixCells(FixCells(k, z.Holder(), n, z.Side()), n, g, Opposite(d)), n, p, d), t, z))
  {
    hide Mk, At, Linked, LinkedPath, Distinct, DistinctPath, Nodes, FixCells;
    var o := Opposite(d);
    var zp := Step(z, d, g, mg, e);
    DownAt(h, d, Mk(d, a, p, mp, Mk(d, b, n, mn, c)), g, mg, e, z);
    BeforeRotate(h, d, a, p, mp, b, n, mn, c, zp);
    HereAt(h, d, Mk(d, a, p, mp, Mk(d, b, n, mn, c)), g, mg, e, z);
    HereAt(h, d, a, p, mp, Mk(d, b, n, mn, c), zp);
    MkBack(d, a, p, mp, Mk(d, b, n, mn, c));
    DownAt(h, o, Mk(d, b, n, mn, c), p, mp, a, zp);
    HereAt(h, d, b, n, mn, c, Step(zp, o, p, mp, a));
    RotateAt(h, d, a, p, mp, b, n, mn, c, zp);
    var h1 := RotateCells(h, d, p, n, Root(b), g, d);
    var y := Mk(d, a, p, mp, b);
    DownAt(h1, d, Mk(d, y, n, mn, c), g, mg, e, z);
    MkBack(d, Mk(d, y, n, mn, c), g, mg, e);
    MkBack(d, y, n, mn, c);
    MkBack(d, c, g, mg, e);
    MkBack(d, y, n, mn, Mk(d, c, g, mg, e));
    BeforeRotate(h1, o, e, g, mg, c, n, mn, y, z);
    RotateAt(h1, o, e, g, mg, c, n, mn, y, z);
    RootIn(b);
    RootIn(c);
    ZigZagCells(h, d, g, p, n, Root(b), Root(c), z.Holder(), z.Side());
    ZigZagOrders(h, d, g, p, n, Root(b), Root(c), z.Holder(), z.Side());
  }

  lemma MkBack(d: Dir, near: Tree, n: Node, m: int, far: Tree)
    requires d != P
    ensures Mk(d, near, n, m, far) == Mk(Opposite(d), far, n, m, near)
  {
  }

  /** xx_rleft for `d == L`, xx_rright for `d == R`. */
  method Rotate(x: Node, d: Dir, ghost s: set<Node>,
      ghost a: Tree, ghost mx: int, ghost b: Tree, ghost y: Node, ghost my: int, ghost c: Tree, ghost z: Path)
    requires d != P && At(Snap(s), Mk(d, a, x, mx, Mk(d, b, y, my, c)), z)
    modifies s
    ensures At(Snap(s), Mk(d, Mk(d, a, x, mx, b), y, my, c), z)
  {
    hide Mk, At;
    ghost var h := Snap(s);
    BeforeRotate(h, d, a, x, mx, b, y, my, c, z);
    RotateAt(h, d, a, x, mx, b, y, my, c, z);
    var n := x.Child(Opposite(d));
    Fix(x, n.Child(d), Opposite(d), s);
    Fix(x.par, n, x.pdir, s);
    Fix(n, x, d, s);
  }
}
