/** Search order, insertion and removal in the trees of LinkedTree, as far as the three headers agree. */
module TreeOrder {
  import opened LinkedTree

  // ----- nodes that come and go -----

  lemma NodesAt(h: Cells, t: Tree, z: Path)
    requires At(h, t, z)
    ensures Nodes(t) + PathNodes(z) <= h.Keys && Apart(t, z)
  {
    LinkedNodes(h, t, z.Holder(), z.Side(), h[z.Holder()].Child(z.Side()));
    PathNodesLinked(h, z);
  }

  /** Only the fields of the nodes of the tree matter. */
  lemma SameAt(h: Cells, k: Cells, t: Tree, z: Path)
    requires At(h, t, z) && forall n :: n in Nodes(t) + PathNodes(z) && n in h ==> n in k && h[n] == k[n]
    ensures At(k, t, z)
  {
    LinkedNodes(h, t, z.Holder(), z.Side(), h[z.Holder()].Child(z.Side()));
    PathNodesLinked(h, z);
    SameTree(h, k, t, z.Holder(), z.Side(), h[z.Holder()].Child(z.Side()));
    SamePath(h, k, z);
  }

  /** A node without children is hung on an empty place. */
  lemma HangLeaf(h: Cells, node: Node, z: Path)
    requires At(h, Leaf, z) && node in h && node !in PathNodes(z) && h[node].left == null && h[node].right == null
    ensures z.Holder() in h
    ensures At(FixCells(h, z.Holder(), node, z.Side()), Branch(Leaf, node, h[node].mark, Leaf), z)
  {
    PathNodesLinked(h, z);
    SamePath(h, FixCells(h, z.Holder(), node, z.Side()), z);
  }

  /** The three calls: `node` takes over the children and the place of `n`. */
  method TakePlace(n: Node, node: Node, ghost s: set<Node>)
    requires {n, node} <= s && n != node && n.par != null && n.par in s && n.par != node
    requires n.left != null ==> n.left in s && n.left != n && n.left != node
    requires n.right != null ==> n.right in s && n.right != n && n.right != node
    modifies s
    ensures var h := old(Snap(s));
            Snap(s) == FixCells(FixCells(FixCells(h, node, h[n].left, L), node, h[n].right, R), h[n].par, node, h[n].pdir)
  {
    Fix(node, n.left, L, s);
    Fix(node, n.right, R, s);
    Fix(n.par, node, n.pdir, s);
  }

  /** The whole of an insertion: fields, order and nodes. */
  lemma HangAll(h: Cells, node: Node, z: Path)
    requires At(h, Leaf, z) && node in h && node !in PathNodes(z) && h[node].left == null && h[node].right == null
    requires Sorted(Inorder(Zip(Leaf, z))) && Below(LeftOf(z), node.key) && Above(RightOf(z), node.key)
    ensures z.Holder() in h
    ensures var leaf := Branch(Leaf, node, h[node].mark, Leaf);
            var k := FixCells(h, z.Holder(), node, z.Side());
            && At(k, leaf, z) && At(k, Zip(leaf, z), Top(Base(z)))
            && Sorted(Inorder(Zip(leaf, z))) && Nodes(Zip(leaf, z)) == Nodes(Zip(Leaf, z)) + {node}
  {
    hide At, Sorted, Below, Above, Zip, Nodes, Inorder, FixCells;
    HangLeaf(h, node, z);
    InsertedSorted(z, node, h[node].mark);
    WholeAt(FixCells(h, z.Holder(), node, z.Side()), Branch(Leaf, node, h[node].mark, Leaf), z);
  }

  /** A node takes the place of another: two calls of xx_fix for the children and one for the pointer above. */
  lemma ReplaceAt(h: Cells, l: Tree, n: Node, m: int, r: Tree, z: Path, node: Node)
    requires At(h, Branch(l, n, m, r), z) && node in h && node !in Nodes(Branch(l, n, m, r)) && node !in PathNodes(z)
    ensures n in h && z.Holder() in h
    ensures var k := FixCells(FixCells(h, node, Root(l), L), node, Root(r), R);
            At(FixCells(k, z.Holder(), node, z.Side()), Branch(l, node, h[node].mark, r), z)
  {
    hide Distinct, DistinctPath, FixCells, Nodes, PathNodes;
    var t, holder, side := Branch(l, n, m, r), z.Holder(), z.Side();
    HereAt(h, L, l, n, m, r, z);
    ApartMk(L, l, n, m, r);
    ApartMk(L, l, node, h[node].mark, r);
    RootIn(l);
    RootIn(r);
    HolderOn(z);
    var k1 := FixCells(h, node, Root(l), L);
    var k2 := FixCells(k1, node, Root(r), R);
    var k3 := FixCells(k2, holder, node, side);
    Rehang(h, l, n, L, node, Root(l), L);
    FixTree(k1, node, Root(r), R, l, node, L, Root(l));
    FixTree(k2, holder, node, side, l, node, L, Root(l));
    FixTree(h, node, Root(l), L, r, n, R, Root(r));
    Rehang(k1, r, n, R, node, Root(r), R);
    FixTree(k2, holder, node, side, r, node, R, Root(r));
    forall m | m in h
      ensures k3[m] == if m == node || m == holder || m == Root(l) || m == Root(r) then k3[m] else h[m]
    {
      FixAt(h, node, Root(l), L, m);
      FixAt(k1, node, Root(r), R, m);
      FixAt(k2, holder, node, side, m);
    }
    ReplaceFields(h, node, Root(l), Root(r), holder, side);
    SamePath(h, k3, z);
  }

  lemma HolderOn(z: Path)
    ensures z.Holder() in PathNodes(z)
  {
  }

  lemma ReplaceFields(h: Cells, node: Node, l: Node?, r: Node?, holder: Node, side: Dir)
    requires node in h && holder in h && node != holder && l != node && r != node && l != holder && r != holder
    ensures var k := FixCells(FixCells(FixCells(h, node, l, L), node, r, R), holder, node, side);
      && k[node].left == l && k[node].right == r && k[node].par == holder && k[node].pdir == side && k[node].mark == h[node].mark
      && k[holder].Child(side) == node && SameBut(h[holder], k[holder], side)
  {
  }

  lemma {:induction false} WholeAt(h: Cells, t: Tree, z: Path)
    requires At(h, t, z)
    ensures At(h, Zip(t, z), Top(Base(z)))
    decreases z
  {
    if z.Step? {
      DownAt(h, z.side, t, z.node, z.mark, z.sibling, z.up);
      WholeAt(h, Mk(z.side, t, z.node, z.mark, z.sibling), z.up);
    }
  }

  lemma {:induction false} UnzipAt(h: Cells, t: Tree, z: Path)
    requires At(h, Zip(t, z), Top(Base(z))) && Sided(z)
    ensures At(h, t, z)
    decreases z
  {
    if z.Step? {
      UnzipAt(h, Mk(z.side, t, z.node, z.mark, z.sibling), z.up);
      DownAt(h, z.side, t, z.node, z.mark, z.sibling, z.up);
    }
  }

  /** The place of a node of the tree. */
  lemma {:induction false} PlaceOf(h: Cells, t: Tree, z0: Path, n: Node) returns (sub: Tree, z: Path)
    requires At(h, t, z0) && n in Nodes(t)
    ensures At(h, sub, z) && sub.Branch? && sub.node == n && Zip(sub, z) == Zip(t, z0) && Base(z) == Base(z0)
  {
    hide At;
    if t.node == n {
      sub, z := t, z0;
    } else if n in Nodes(t.left) {
      DownAt(h, L, t.left, t.node, t.mark, t.right, z0);
      sub, z := PlaceOf(h, t.left, Step(z0, L, t.node, t.mark, t.right), n);
    } else {
      DownAt(h, R, t.right, t.node, t.mark, t.left, z0);
      sub, z := PlaceOf(h, t.right, Step(z0, R, t.node, t.mark, t.left), n);
    }
  }

  /** A subtree from elsewhere goes to a place, whatever was there: one call of xx_fix. */
  lemma GraftAt(h: Cells, z: Path, t: Tree, par0: Node, dir0: Dir)
    requires LinkedPath(h, z) && Linked(h, t, par0, dir0, Root(t)) && Apart(t, z)
    ensures z.Holder() in h && At(FixCells(h, z.Holder(), Root(t), z.Side()), t, z)
  {
    PathNodesLinked(h, z);
    RootIn(t);
    HolderIn(z);
    Rehang(h, t, par0, dir0, z.Holder(), Root(t), z.Side());
    SamePath(h, FixCells(h, z.Holder(), Root(t), z.Side()), z);
  }

  lemma HolderIn(z: Path)
    ensures z.Holder() in PathNodes(z)
  {
  }

  // ----- order -----

  /** The nodes from left to right. */
  function Inorder(t: Tree): seq<Node> {
    if t.Leaf? then [] else Inorder(t.left) + [t.node] + Inorder(t.right)
  }

  /** The nodes to the left and to the right of a place. */
  function LeftOf(z: Path): seq<Node> {
    if z.Top? then [] else if z.side == R then LeftOf(z.up) + Inorder(z.sibling) + [z.node] else LeftOf(z.up)
  }

  function RightOf(z: Path): seq<Node> {
    if z.Top? then [] else if z.side == R then RightOf(z.up) else [z.node] + Inorder(z.sibling) + RightOf(z.up)
  }

  lemma {:induction false} ZipInorder(t: Tree, z: Path)
    ensures Inorder(Zip(t, z)) == LeftOf(z) + Inorder(t) + RightOf(z)
    decreases z
  {
    if z.Step? {
      ZipInorder(Mk(z.side, t, z.node, z.mark, z.sibling), z.up);
    }
  }

  function Members(s: seq<Node>): set<Node> {
    set n | n in s
  }

  lemma {:induction false} InorderNodes(t: Tree)
    ensures Nodes(t) == Members(Inorder(t))
  {
    if t.Branch? {
      InorderNodes(t.left);
      InorderNodes(t.right);
      assert Members(Inorder(t)) == Members(Inorder(t.left)) + {t.node} + Members(Inorder(t.right));
    }
  }

  /** Strictly increasing keys. */
  predicate Sorted(s: seq<Node>) {
    forall i, j :: 0 <= i < j < |s| ==> s[i].key < s[j].key
  }

  predicate Below(s: seq<Node>, key: int) {
    forall n :: n in s ==> n.key < key
  }

  predicate Above(s: seq<Node>, key: int) {
    forall n :: n in s ==> key < n.key
  }

  lemma SortedSplit(a: seq<Node>, n: Node, b: seq<Node>)
    ensures Sorted(a + [n] + b) <==> Sorted(a) && Sorted(b) && Below(a, n.key) && Above(b, n.key)
  {
    var s := a + [n] + b;
    if Sorted(s) {
      forall i, j | 0 <= i < j < |a| ensures a[i].key < a[j].key { assert a[i] == s[i] && a[j] == s[j]; }
      forall i, j | 0 <= i < j < |b| ensures b[i].key < b[j].key {
        assert b[i] == s[|a| + 1 + i] && b[j] == s[|a| + 1 + j];
      }
      forall m | m in a ensures m.key < n.key {
        var i :| 0 <= i < |a| && a[i] == m;
        assert s[i] == m && s[|a|] == n;
      }
      forall m | m in b ensures n.key < m.key {
        var i :| 0 <= i < |b| && b[i] == m;
        assert s[|a| + 1 + i] == m && s[|a|] == n;
      }
    }
  }

  function Depth(z: Path): nat {
    if z.Top? then 0 else 1 + Depth(z.up)
  }

  /** One step of a search: the nodes passed bound the key from the other side. */
  lemma SearchStep(l: Tree, n: Node, m: int, r: Tree, z: Path, key: int)
    requires Sorted(Inorder(Zip(Branch(l, n, m, r), z))) && Below(LeftOf(z), key) && Above(RightOf(z), key)
    ensures key < n.key ==> Above(RightOf(Step(z, L, n, m, r)), key)
    ensures n.key < key ==> Below(LeftOf(Step(z, R, n, m, l)), key)
  {
    hide Sorted, Below, Above, Inorder, Zip;
    var a, b := LeftOf(z) + Inorder(l), Inorder(r) + RightOf(z);
    BranchInorder(l, n, m, r, z);
    SortedSplit(a, n, b);
    StepSides(l, n, m, r, z);
    BeyondBoth(a, n, b, key);
  }

  lemma BranchInorder(l: Tree, n: Node, m: int, r: Tree, z: Path)
    ensures Inorder(Zip(Branch(l, n, m, r), z)) == (LeftOf(z) + Inorder(l)) + [n] + (Inorder(r) + RightOf(z))
  {
    ZipInorder(Branch(l, n, m, r), z);
  }

  lemma StepSides(l: Tree, n: Node, m: int, r: Tree, z: Path)
    ensures LeftOf(Step(z, R, n, m, l)) == LeftOf(z) + Inorder(l) + [n] && RightOf(Step(z, L, n, m, r)) == [n] + (Inorder(r) + RightOf(z))
  {
  }

  lemma BeyondBoth(a: seq<Node>, n: Node, b: seq<Node>, key: int)
    requires Below(a, n.key) && Above(b, n.key)
    ensures n.key < key ==> Below(a + [n], key)
    ensures key < n.key ==> Above([n] + b, key)
  {
  }

  /** xx_findloc: the node with the key, or the place where it belongs. `steps` counts the rounds of the loop. */
  method FindLoc(root: Node, key: int, ghost s: set<Node>, ghost t: Tree)
    returns (pn: Node, pd: Dir, found: bool, ghost sub: Tree, ghost z: Path, ghost steps: nat)
    requires At(Snap(s), t, Top(root)) && Sorted(Inorder(t))
    ensures steps == Depth(z) + (if found then 1 else 0)
    ensures At(Snap(s), sub, z) && Zip(sub, z) == t && Base(z) == root
    ensures if found then sub.Branch? && sub.node == pn && pn.key == key
            else sub == Leaf && pn == z.Holder() && pd == z.Side()
    ensures Below(LeftOf(z), key) && Above(RightOf(z), key)
  {
    hide Linked, Apart, Sorted, Below, Above;
    ghost var h := Snap(s);
    sub, z := t, Top(root);
    pn, pd, steps := root, P, 0;
    NothingBeside(key);
    while pn.Child(pd) != null
      invariant At(h, sub, z) && Zip(sub, z) == t && Base(z) == root && pn == z.Holder() && pd == z.Side()
      invariant h == Snap(s) && pn in s && steps == Depth(z)
      invariant Below(LeftOf(z), key) && Above(RightOf(z), key)
      decreases sub
    {
      PlaceAt(h, sub, z);
      var l, n, m, r := sub.left, sub.node, sub.mark, sub.right;
      HereAt(h, L, l, n, m, r, z);
      SearchStep(l, n, m, r, z, key);
      DownAt(h, L, l, n, m, r, z);
      DownAt(h, R, r, n, m, l, z);
      pn := pn.Child(pd);
      steps := steps + 1;
      if key < pn.key {
        pd := L;
        sub, z := l, Step(z, L, n, m, r);
      } else if pn.key < key {
        pd := R;
        sub, z := r, Step(z, R, n, m, l);
      } else {
        found := true;
        return;
      }
    }
    PlaceAt(h, sub, z);
    found := false;
  }

  /** A search that ends at an empty place has met no node with the key. */
  lemma KeyAbsent(z: Path, key: int)
    requires Below(LeftOf(z), key) && Above(RightOf(z), key)
    ensures forall n :: n in Nodes(Zip(Leaf, z)) ==> n.key != key
  {
    ZipInorder(Leaf, z);
    InorderNodes(Zip(Leaf, z));
  }

  /** A node hung where its key belongs keeps the order and is the one node more. */
  lemma InsertedSorted(z: Path, node: Node, m: int)
    requires Sorted(Inorder(Zip(Leaf, z))) && Below(LeftOf(z), node.key) && Above(RightOf(z), node.key)
    ensures Sorted(Inorder(Zip(Branch(Leaf, node, m, Leaf), z)))
    ensures Nodes(Zip(Branch(Leaf, node, m, Leaf), z)) == Nodes(Zip(Leaf, z)) + {node}
  {
    hide Sorted, Below, Above, Zip, Nodes, LeftOf, RightOf;
    var t := Branch(Leaf, node, m, Leaf);
    ZipInorder(Leaf, z);
    ZipInorder(t, z);
    assert Inorder(t) == [node];
    assert LeftOf(z) + Inorder(Leaf) + RightOf(z) == LeftOf(z) + RightOf(z);
    InorderNodes(Zip(Leaf, z));
    InorderNodes(Zip(t, z));
    assert Members(LeftOf(z) + [node] + RightOf(z)) == Members(LeftOf(z) + RightOf(z)) + {node};
    SortedJoin(LeftOf(z), RightOf(z));
    SortedSplit(LeftOf(z), node, RightOf(z));
  }

  lemma SortedJoin(a: seq<Node>, b: seq<Node>)
    requires Sorted(a + b)
    ensures Sorted(a) && Sorted(b)
  {
    forall i, j | 0 <= i < j < |a| ensures a[i].key < a[j].key { assert (a + b)[i] == a[i] && (a + b)[j] == a[j]; }
    forall i, j | 0 <= i < j < |b| ensures b[i].key < b[j].key {
      assert (a + b)[|a| + i] == b[i] && (a + b)[|a| + j] == b[j];
    }
  }

  lemma NothingBeside(key: int)
    ensures Below([], key) && Above([], key)
  {
  }

  lemma PlaceAt(h: Cells, t: Tree, z: Path)
    requires At(h, t, z)
    ensures z.Holder() in h && h[z.Holder()].Child(z.Side()) == Root(t)
  {
  }

  function Near(d: Dir, t: Tree): Tree
    requires t.Branch?
  {
    if d == R then t.right else t.left
  }

  function Far(d: Dir, t: Tree): Tree
    requires t.Branch?
  {
    if d == R then t.left else t.right
  }

  lemma MkSides(d: Dir, t: Tree)
    requires t.Branch?
    ensures t == Mk(d, Near(d, t), t.node, t.mark, Far(d, t))
  {
  }

  lemma InorderMk(d: Dir, near: Tree, n: Node, m: int, far: Tree)
    ensures Inorder(Mk(d, near, n, m, far)) ==
      if d == R then Inorder(far) + [n] + Inorder(near) else Inorder(near) + [n] + Inorder(far)
  {
  }

  lemma SameInorder(d: Dir, a: Tree, x: Node, mx: int, b: Tree, y: Node, my: int, c: Tree)
    ensures Inorder(Mk(d, Mk(d, a, x, mx, b), y, my, c)) == Inorder(Mk(d, a, x, mx, Mk(d, b, y, my, c)))
  {
    hide Mk, Inorder;
    InorderMk(d, a, x, mx, b);
    InorderMk(d, b, y, my, c);
    InorderMk(d, Mk(d, a, x, mx, b), y, my, c);
    InorderMk(d, a, x, mx, Mk(d, b, y, my, c));
  }

  lemma MkInorder(d: Dir, near: Tree, near2: Tree, n: Node, m: int, far: Tree, far2: Tree)
    requires Inorder(near) == Inorder(near2) && Inorder(far) == Inorder(far2)
    ensures Inorder(Mk(d, near, n, m, far)) == Inorder(Mk(d, near2, n, m, far2))
  {
  }

  /** What can be read off the nodes themselves. */
  lemma Fields(s: set<Node>, n: Node, d: Dir, near: Tree, m: int, far: Tree, z: Path)
    requires d != P && At(Snap(s), Mk(d, near, n, m, far), z)
    ensures n in s && n.par == z.Holder() && n.pdir == z.Side() && n.mark == m && z.Holder() in s
    ensures n.Child(d) == Root(near) && n.Child(Opposite(d)) == Root(far)
    ensures (near.Branch? ==> near.node in s) && (far.Branch? ==> far.node in s)
  {
    hide At, Mk;
    HereAt(Snap(s), d, near, n, m, far, z);
    RootIn(near);
    RootIn(far);
    ApartMk(d, near, n, m, far);
  }

  lemma {:induction false} InZip(t: Tree, z: Path)
    ensures Nodes(t) <= Nodes(Zip(t, z)) && (z.Step? ==> Zip(t, z) != Leaf)
    decreases z
  {
    if z.Step? { InZip(Mk(z.side, t, z.node, z.mark, z.sibling), z.up); }
  }

  lemma PlaceOfHolder(h: Cells, t: Tree, z: Path)
    requires At(h, t, z)
    ensures Sided(z) && (t.Branch? ==> t.node != Base(z)) && (z.Step? ==> z.node != Base(z))
    ensures z.Step? ==> At(h, Mk(z.side, t, z.node, z.mark, z.sibling), z.up)
  {
    SidedPath(z);
    BaseIn(z);
    if z.Step? { BaseIn(z.up); }
    if z.Step? { DownAt(h, z.side, t, z.node, z.mark, z.sibling, z.up); }
  }

  lemma {:induction false} SidedPath(z: Path)
    requires DistinctPath(z)
    ensures Sided(z)
  {
    if z.Step? { SidedPath(z.up); }
  }

  /** The tree is the same whichever nodes besides its own are looked at. */
  lemma SnapAt(s: set<Node>, u: set<Node>, t: Tree, root: Node)
    requires At(Snap(s), t, Top(root)) && Nodes(t) + {root} <= u
    ensures At(Snap(u), t, Top(root))
  {
    SameAt(Snap(s), Snap(u), t, Top(root));
  }

  lemma ParentOf(d: Dir, a: Tree, n: Node, m: int, b: Tree)
    ensures Mk(d, a, n, m, b).Branch? && Mk(d, a, n, m, b).node == n
  {
  }

  /** The root pointer of the sentinel tells the top from every other place. */
  lemma TopRoot(h: Cells, t: Tree, z: Path)
    requires At(h, t, z) && t.Branch?
    ensures Base(z) in h && h[Base(z)].par != null && (h[Base(z)].par == t.node <==> z.Top?)
  {
    InZip(t, z);
    WholeAt(h, t, z);
    var w := Zip(t, z);
    MkSides(L, w);
    HereAt(h, L, Near(L, w), w.node, w.mark, Far(L, w), Top(Base(z)));
    if z.Step? { RootOnPath(t, z); }
  }

  lemma TopView(s: set<Node>, t: Tree, z: Path)
    requires At(Snap(s), t, z) && t.Branch?
    ensures Base(z) in s && t.node in s && t.node.par == z.Holder() && (Base(z).par == t.node <==> z.Top?)
    ensures z.Step? ==> z.node.mark == z.mark
  {
    TopRoot(Snap(s), t, z);
    Around(s, t, z);
  }

  lemma {:induction false} RootOnPath(t: Tree, z: Path)
    requires z.Step?
    ensures Zip(t, z).Branch? && Zip(t, z).node in PathNodes(z)
    decreases z
  {
    if z.up.Step? { RootOnPath(Mk(z.side, t, z.node, z.mark, z.sibling), z.up); }
  }

  lemma ZipSame(t: Tree, u: Tree, z: Path)
    requires Inorder(t) == Inorder(u)
    ensures Inorder(Zip(t, z)) == Inorder(Zip(u, z))
  {
    ZipInorder(t, z);
    ZipInorder(u, z);
  }

  /** A rotation between two nodes, whatever their colours before and after. */
  lemma TurnInorder(d: Dir, a: Tree, x: Node, m1: int, b: Tree, y: Node, m2: int, c: Tree, m3: int, m4: int, c2: Tree)
    requires Inorder(c) == Inorder(c2)
    ensures Inorder(Mk(d, a, x, m1, Mk(d, b, y, m2, c))) == Inorder(Mk(d, Mk(d, a, x, m3, b), y, m4, c2))
  {
    hide Mk, Inorder;
    InorderMk(d, b, y, m2, c);
    InorderMk(d, a, x, m1, Mk(d, b, y, m2, c));
    InorderMk(d, a, x, m3, b);
    InorderMk(d, Mk(d, a, x, m3, b), y, m4, c2);
  }

  // ----- taking a node out: its replacement -----

  /** The last node of a tree with what is below it, the way there, and the tree without that node. */
  function Last(t: Tree): (r: Tree)
    requires t.Branch?
    ensures r.Branch? && r.right == Leaf
  {
    if t.right.Leaf? then t else Last(t.right)
  }

  function Spine(t: Tree, z: Path): Path
    requires t.Branch?
  {
    if t.right.Leaf? then z else Spine(t.right, Step(z, R, t.node, t.mark, t.left))
  }

  function DropLast(t: Tree): Tree
    requires t.Branch?
  {
    if t.right.Leaf? then t.left else Branch(t.left, t.node, t.mark, DropLast(t.right))
  }

  lemma {:induction false} LastAt(h: Cells, t: Tree, z: Path)
    requires At(h, t, z) && t.Branch?
    ensures At(h, Last(t), Spine(t, z)) && (t.right.Branch? ==> Spine(t, z).Step? && Spine(t, z).side == R)
  {
    hide At;
    if t.right.Branch? {
      DownAt(h, R, t.right, t.node, t.mark, t.left, z);
      LastAt(h, t.right, Step(z, R, t.node, t.mark, t.left));
    }
  }

  lemma {:induction false} DropLastAt(h: Cells, t: Tree, z: Path)
    requires t.Branch?
    ensures At(h, Last(t).left, Spine(t, z)) <==> At(h, DropLast(t), z)
  {
    hide At;
    if t.right.Branch? {
      DropLastAt(h, t.right, Step(z, R, t.node, t.mark, t.left));
      DownAt(h, R, DropLast(t.right), t.node, t.mark, t.left, z);
    }
  }

  lemma {:induction false} DropLastInorder(t: Tree)
    requires t.Branch?
    ensures Inorder(t) == Inorder(DropLast(t)) + [Last(t).node]
    ensures Nodes(t) == Nodes(DropLast(t)) + {Last(t).node}
    ensures Distinct(t) ==> Distinct(DropLast(t)) && Last(t).node !in Nodes(DropLast(t))
  {
    if t.right.Branch? {
      DropLastInorder(t.right);
    }
  }

  lemma {:induction false} SpineZip(t: Tree, z: Path)
    requires t.Branch?
    ensures Zip(Last(t).left, Spine(t, z)) == Zip(DropLast(t), z) && Base(Spine(t, z)) == Base(z)
  {
    if t.right.Branch? { SpineZip(t.right, Step(z, R, t.node, t.mark, t.left)); }
  }

  /** What is left of a subtree without its root `n`, and the node that takes its place. */
  function Removed(t: Tree, mark: int): Tree
    requires t.Branch?
  {
    if t.left.Leaf? then t.right else Branch(DropLast(t.left), Last(t.left).node, mark, t.right)
  }

  /** xx_findrep */
  method FindRep(node: Node, ghost s: set<Node>, ghost t: Tree, ghost z: Path) returns (rep: Node?)
    requires At(Snap(s), t, z) && t.Branch? && t.node == node
    ensures rep == if t.left.Leaf? then Root(t.right) else Last(t.left).node
    ensures rep != null ==> rep in s && rep != node
  {
    hide At;
    Fields(s, node, L, t.left, t.mark, t.right, z);
    NodesAt(Snap(s), t, z);
    RootIn(t.right);
    rep := node.left;
    if rep == null {
      return node.right;
    }
    DownAt(Snap(s), L, t.left, t.node, t.mark, t.right, z);
    ghost var cur, y := t.left, Step(z, L, t.node, t.mark, t.right);
    DropLastInorder(t.left);
    Fields(s, cur.node, L, cur.left, cur.mark, cur.right, y);
    while rep.right != null
      invariant At(Snap(s), cur, y) && cur.Branch? && cur.node == rep && rep in s && rep.right == Root(cur.right)
      invariant Last(cur) == Last(t.left)
      decreases cur
    {
      DownAt(Snap(s), R, cur.right, cur.node, cur.mark, cur.left, y);
      y := Step(y, R, cur.node, cur.mark, cur.left);
      rep := rep.right;
      cur := cur.right;
      Fields(s, cur.node, L, cur.left, cur.mark, cur.right, y);
    }
  }

  lemma {:induction false} LastApart(t: Tree, z: Path)
    requires t.Branch? && Distinct(t)
    ensures Nodes(Last(t)) <= Nodes(t) && Distinct(Last(t)) && Last(t).node in Nodes(Last(t))
    ensures t.right.Branch? ==> Spine(t, z).Holder() in Nodes(t) && Spine(t, z).Holder() !in Nodes(Last(t)) && t.node !in Nodes(Last(t))
  {
    if t.right.Branch? {
      LastApart(t.right, Step(z, R, t.node, t.mark, t.left));
    }
  }

  lemma {:induction false} SpineBase(t: Tree, y: Path, z: Path)
    requires t.Branch? && t.right.Branch?
    ensures Spine(t, y).Step? && Spine(t, z).Step?
    ensures Spine(t, y).node == Spine(t, z).node && Spine(t, y).side == R && Spine(t, z).side == R
  {
    if t.right.right.Branch? { SpineBase(t.right, Step(y, R, t.node, t.mark, t.left), Step(z, R, t.node, t.mark, t.left)); }
  }

  /** The nodes that the removal of a node further up the tree touches are different ones. */
  lemma DeepApart(h: Cells, t: Tree, z: Path)
    requires At(h, t, z) && t.Branch? && t.left.Branch? && t.left.right.Branch?
    ensures var rep, par := Last(t.left), Spine(t.left, Step(z, L, t.node, t.mark, t.right)).Holder();
            && {rep.node, par, t.node, t.left.node, z.Holder()} <= h.Keys
            && rep.node != t.node && par != rep.node && par != t.node && t.left.node != rep.node && t.left.node != t.node
            && (rep.left.Branch? ==> rep.left.node in h && rep.left.node != t.node && rep.left.node != rep.node)
            && (t.right.Branch? ==> t.right.node in h && t.right.node != t.node && t.right.node != rep.node)
            && z.Holder() != t.node && z.Holder() != rep.node
  {
    NodesAt(h, t, z);
    HolderIn(z);
    var b := Step(z, L, t.node, t.mark, t.right);
    LastApart(t.left, b);
    ChildrenApart(Last(t.left));
    RootIn(t.right);
    RootIn(t.left);
  }

  /** The replacement is further down: four calls of xx_fix. */
  lemma RemoveDeep(h: Cells, t: Tree, z: Path)
    requires At(h, t, z) && t.Branch? && t.left.Branch? && t.left.right.Branch?
    ensures var rep, y := Last(t.left), Spine(t.left, Step(z, L, t.node, t.mark, t.right));
            && {rep.node, y.Holder(), t.node, z.Holder()} <= h.Keys && rep.node != t.node
            && h[rep.node].par == y.Holder() && h[rep.node].pdir == R && h[rep.node].left == Root(rep.left)
            && (var k1 := FixCells(h, y.Holder(), Root(rep.left), R);
                var k3 := FixCells(FixCells(k1, rep.node, k1[t.node].left, L), rep.node, Root(t.right), R);
                At(FixCells(k3, z.Holder(), rep.node, z.Side()), Removed(t, rep.mark), z))
  {
    hide At, Linked, LinkedPath, Nodes, PathNodes, Distinct, DistinctPath, FixCells;
    var b := Step(z, L, t.node, t.mark, t.right);
    var rep, y := Last(t.left), Spine(t.left, b);
    var l := DropLast(t.left);
    DownAt(h, L, t.left, t.node, t.mark, t.right, z);
    LastAt(h, t.left, b);
    DropLastInorder(t.left);
    HereAt(h, L, t.left, t.node, t.mark, t.right, z);
    HereAt(h, L, rep.left, rep.node, rep.mark, rep.right, y);
    var k1 := FixCells(h, y.Holder(), Root(rep.left), R);
    LiftLeft(h, rep, y);
    DropLastAt(k1, t.left, b);
    DownAt(k1, L, l, t.node, t.mark, t.right, z);
    HereAt(k1, L, l, t.node, t.mark, t.right, z);
    TakenOut(h, t, z);
    ReplaceAt(k1, l, t.node, t.mark, t.right, z, rep.node);
  }

  /** The left subtree of a node without a right one takes its place. */
  lemma LiftLeft(h: Cells, t: Tree, z: Path)
    requires At(h, t, z) && t.Branch? && t.right == Leaf
    ensures z.Holder() in h && t.node in h
    ensures var k := FixCells(h, z.Holder(), Root(t.left), z.Side());
            At(k, t.left, z) && k[t.node].mark == t.mark
  {
    HereAt(h, L, t.left, t.node, t.mark, t.right, z);
    RootIn(t.left);
    GraftAt(h, z, t.left, t.node, L);
  }

  /** The replacement is a node of its own. */
  lemma TakenOut(h: Cells, t: Tree, z: Path)
    requires At(h, t, z) && t.Branch? && t.left.Branch?
    ensures var rep := Last(t.left).node;
            && rep != t.node && rep !in PathNodes(z)
            && rep !in Nodes(Branch(DropLast(t.left), t.node, t.mark, t.right))
  {
    DropLastInorder(t.left);
  }

  /** The replacement is the left child: two calls of xx_fix, which the headers make in either order. */
  lemma RemoveLeftChild(h: Cells, t: Tree, z: Path)
    requires At(h, t, z) && t.Branch? && t.left.Branch? && t.left.right == Leaf
    ensures var rep := t.left;
            && {rep.node, t.node, z.Holder()} <= h.Keys && rep.node != t.node && z.Holder() != rep.node && h[t.node].left == rep.node
            && At(FixCells(FixCells(h, rep.node, Root(t.right), R), z.Holder(), rep.node, z.Side()), Removed(t, rep.mark), z)
            && At(FixCells(FixCells(h, z.Holder(), rep.node, z.Side()), rep.node, Root(t.right), R), Removed(t, rep.mark), z)
  {
    hide At, Linked, LinkedPath, Distinct, DistinctPath, FixCells;
    var rep, n, holder, side := t.left.node, t.node, z.Holder(), z.Side();
    var a, r := t.left.left, t.right;
    HereAt(h, L, t.left, n, t.mark, r, z);
    DownAt(h, L, t.left, n, t.mark, r, z);
    HereAt(h, L, a, rep, t.left.mark, Leaf, Step(z, L, n, t.mark, r));
    LiftLeft(h, t.left, Step(z, L, n, t.mark, r));
    var k := FixCells(h, n, Root(a), L);
    DownAt(k, L, a, n, t.mark, r, z);
    TakenOut(h, t, z);
    ReplaceAt(k, a, n, t.mark, r, z, rep);
    NodesAt(h, t, z);
    RemovedNodes(t, t.left.mark);
    RootIn(a);
    RootIn(r);
    if a.Branch? { PiecesOfLeft(h, t, z); }
    SwapFixes(h, rep, n, Root(a), Root(r), holder, side, Removed(t, t.left.mark), z);
  }

  /** What is left are the other nodes, in their order. */
  lemma RemovedNodes(t: Tree, mark: int)
    requires t.Branch? && Distinct(t)
    ensures Nodes(Removed(t, mark)) == Nodes(t) - {t.node}
    ensures Inorder(Removed(t, mark)) == Inorder(t.left) + Inorder(t.right)
  {
    hide DropLast, Last;
    if t.left.Branch? {
      DropLastInorder(t.left);
      RemovedParts(t, mark);
    } else {
      assert Inorder(t.left) + Inorder(t.right) == Inorder(t.right);
    }
  }

  lemma RemovedParts(t: Tree, mark: int)
    requires t.Branch? && t.left.Branch?
    ensures var l, n := DropLast(t.left), Last(t.left).node;
            Nodes(Removed(t, mark)) == Nodes(l) + {n} + Nodes(t.right) && Inorder(Removed(t, mark)) == Inorder(l) + [n] + Inorder(t.right)
  {
  }

  lemma PiecesOfLeft(h: Cells, t: Tree, z: Path)
    requires At(h, t, z) && t.Branch? && t.left.Branch? && t.left.left.Branch?
    ensures t.left.left.node in h && h[t.left.left.node].par == t.left.node && h[t.left.left.node].pdir == L
    ensures t.left.left.node in Nodes(t.left) && t.left.left.node !in Nodes(t.right)
  {
    assert Linked(h, t.left, t.node, L, h[t.node].left);
    assert Linked(h, t.left.left, t.left.node, L, h[t.left.node].left);
  }

  /** The fields agree everywhere but at the node that has left. */
  lemma SwapFixes(h: Cells, rep: Node, n: Node, a: Node?, r: Node?, holder: Node, side: Dir, u: Tree, z: Path)
    requires {rep, n, holder} <= h.Keys && rep != n && holder != n && holder != rep && n !in Nodes(u) && n !in PathNodes(z)
    requires a != rep && a != n && a != holder && r != rep && r != n && r != holder && (a != null ==> a != r)
    requires h[rep].left == a && (a != null && a in h ==> h[a].par == rep && h[a].pdir == L)
    requires At(FixCells(FixCells(FixCells(FixCells(h, n, a, L), rep, a, L), rep, r, R), holder, rep, side), u, z)
    ensures At(FixCells(FixCells(h, rep, r, R), holder, rep, side), u, z)
    ensures At(FixCells(FixCells(h, holder, rep, side), rep, r, R), u, z)
  {
    hide At, FixCells;
    var k1 := FixCells(h, n, a, L);
    var k2 := FixCells(k1, rep, a, L);
    var k3 := FixCells(k2, rep, r, R);
    var k4 := FixCells(k3, holder, rep, side);
    var p1 := FixCells(h, rep, r, R);
    var p2 := FixCells(p1, holder, rep, side);
    var q1 := FixCells(h, holder, rep, side);
    var q2 := FixCells(q1, rep, r, R);
    forall m | m in h && m != n
      ensures k4[m] == p2[m] && k4[m] == q2[m]
    {
      FixAt(h, n, a, L, m);
      FixAt(k1, rep, a, L, m);
      FixAt(k2, rep, r, R, m);
      FixAt(k3, holder, rep, side, m);
      FixAt(h, rep, r, R, m);
      FixAt(p1, holder, rep, side, m);
      FixAt(h, holder, rep, side, m);
      FixAt(q1, rep, r, R, m);
    }
    SameAt(k4, p2, u, z);
    SameAt(k4, q2, u, z);
  }

  /** The right child takes the place of a node without a left one, if there is a right one. */
  lemma RemoveNoLeft(h: Cells, t: Tree, z: Path)
    requires At(h, t, z) && t.Branch? && t.left == Leaf
    ensures z.Holder() in h && t.node in h && h[t.node].right == Root(t.right)
    ensures At(FixCells(h, z.Holder(), Root(t.right), z.Side()), t.right, z)
  {
    HereAt(h, L, t.left, t.node, t.mark, t.right, z);
    GraftAt(h, z, t.right, t.node, R);
  }

  /** What can be read off the nodes around a place. */
  lemma Around(s: set<Node>, t: Tree, z: Path)
    requires At(Snap(s), t, z)
    ensures Sided(z) && Base(z) in s
    ensures t.Branch? ==> t.node in s && t.node.par == z.Holder() && t.node.pdir == z.Side() && t.node.mark == t.mark
    ensures t.Branch? ==> t.node.left == Root(t.left) && t.node.right == Root(t.right)
    ensures z.Holder() in s && z.Holder().Child(z.Side()) == Root(t)
    ensures z.Top? ==> z.root.pdir == P
    ensures z.Step? ==>
      && z.side != P && z.node in s && z.node.mark == z.mark && z.node.pdir == z.up.Side() && z.node.par == z.up.Holder()
      && z.up.Holder() in s && z.up.Holder().Child(z.up.Side()) == z.node
      && z.node.Child(Opposite(z.side)) == Root(z.sibling)
      && (z.sibling.Branch? ==> z.sibling.node in s && z.sibling.node.mark == z.sibling.mark)
      && (z.sibling.Branch? ==> z.sibling.node.left == Root(z.sibling.left) && z.sibling.node.right == Root(z.sibling.right))
  {
    PlaceOfHolder(Snap(s), t, z);
    PlaceAt(Snap(s), t, z);
    BaseIn(z);
    NodesAt(Snap(s), t, z);
    if t.Branch? {
      HereAt(Snap(s), L, t.left, t.node, t.mark, t.right, z);
    }
    if z.Step? {
      var d, b := z.side, z.sibling;
      HereAt(Snap(s), d, t, z.node, z.mark, b, z.up);
      MkBack(d, t, z.node, z.mark, b);
      if b.Branch? {
        DownAt(Snap(s), Opposite(d), b, z.node, z.mark, t, z.up);
        HereAt(Snap(s), L, b.left, b.node, b.mark, b.right, Step(z.up, Opposite(d), z.node, z.mark, t));
      }
    }
  }

  /** The whole tree without a node: the nodes before and after it. */
  lemma ZipRemoved(t: Tree, mark: int, z: Path)
    requires t.Branch? && Apart(t, z) && Sorted(Inorder(Zip(t, z)))
    ensures Sorted(Inorder(Zip(Removed(t, mark), z))) && Nodes(Zip(Removed(t, mark), z)) == Nodes(Zip(t, z)) - {t.node}
  {
    hide Sorted, Zip, Removed, Nodes, PathNodes, Inorder, LeftOf, RightOf, Distinct, DistinctPath;
    var u := Removed(t, mark);
    RemovedNodes(t, mark);
    ZipNodesLess(t, u, z);
    ZipInorder(t, z);
    ZipInorder(u, z);
    InorderMk(L, t.left, t.node, t.mark, t.right);
    Cancelled(LeftOf(z), Inorder(t.left), t.node, Inorder(t.right), RightOf(z));
  }

  /** A node less in a sorted sequence. */
  lemma Cancelled(a: seq<Node>, l: seq<Node>, n: Node, r: seq<Node>, b: seq<Node>)
    requires Sorted(a + (l + [n] + r) + b)
    ensures Sorted(a + (l + r) + b)
  {
    hide Sorted;
    assert a + (l + [n] + r) + b == (a + l) + [n] + (r + b);
    assert a + (l + r) + b == (a + l) + (r + b);
    SortedSplit(a + l, n, r + b);
    SortedConcat(a + l, n.key, r + b);
  }

  lemma ZipNodesLess(t: Tree, u: Tree, z: Path)
    requires t.Branch? && Apart(t, z) && Nodes(u) == Nodes(t) - {t.node}
    ensures Nodes(Zip(u, z)) == Nodes(Zip(t, z)) - {t.node}
  {
    hide Zip, PathNodes, Distinct, DistinctPath;
    ZipNodes(t, z);
    ZipNodes(u, z);
    BaseIn(z);
    BaseOutside(t, z);
    BaseOutside(u, z);
  }

  lemma SortedConcat(a: seq<Node>, key: int, b: seq<Node>)
    requires Sorted(a) && Sorted(b) && Below(a, key) && Above(b, key)
    ensures Sorted(a + b)
  {
  }

  lemma {:induction false} BaseOutside(t: Tree, z: Path)
    requires Base(z) !in Nodes(t) && DistinctPath(z)
    ensures Base(z) !in Nodes(Zip(t, z))
    decreases z
  {
    if z.Step? {
      BaseIn(z.up);
      BaseOutside(Mk(z.side, t, z.node, z.mark, z.sibling), z.up);
    }
  }

  lemma ChildrenApart(t: Tree)
    requires t.Branch? && Distinct(t)
    ensures Root(t.left) != t.node && Root(t.right) != t.node && t.node in Nodes(t)
    ensures (t.left.Branch? ==> t.left.node in Nodes(t)) && (t.right.Branch? ==> t.right.node in Nodes(t))
  {
  }

  // ----- shared steps of the operations -----

  function Height(t: Tree): nat {
    if t.Leaf? then 0 else 1 + (if Height(t.left) < Height(t.right) then Height(t.right) else Height(t.left))
  }

  /** Marking the node at the place, on the heap. */
  method Paint(n: Node, m: int, ghost s: set<Node>, ghost d: Dir, ghost near: Tree, ghost m0: int, ghost far: Tree, ghost z: Path)
    requires d != P && At(Snap(s), Mk(d, near, n, m0, far), z)
    modifies s
    ensures At(Snap(s), Mk(d, near, n, m, far), z)
  {
    hide At, Mk, Snap;
    SnapAll(s);
    HereAt(Snap(s), d, near, n, m0, far, z);
    MarkMk(Snap(s), d, near, n, m0, far, z, m);
    SetMark(n, m, s);
  }

  lemma PaintedSides(d: Dir, t: Tree, m: int)
    requires t.Branch? && d != P
    ensures t.(mark := m) == Mk(d, Near(d, t), t.node, m, Far(d, t))
  {
  }

  lemma ZipStep(d: Dir, x: Tree, n: Node, m: int, b: Tree, z: Path)
    ensures Zip(x, Step(z, d, n, m, b)) == Zip(Mk(d, x, n, m, b), z) && Base(Step(z, d, n, m, b)) == Base(z)
  {
  }

  lemma RootsIn(h: Cells, t: Tree, z: Path)
    requires At(h, t, z) && t.Branch?
    ensures t.right.Branch? ==> t.right.node in h && t.right.node != t.node
    ensures t.left.Branch? ==> t.left.node in h && t.left.node != t.node
    ensures z.Holder() in h && z.Holder() != t.node && z.Holder() !in Nodes(t)
  {
    NodesAt(h, t, z);
    ChildrenApart(t);
    HolderIn(z);
  }

  lemma SidesOfMk(d: Dir, a: Tree, n: Node, m: int, b: Tree)
    requires d != P
    ensures Mk(d, a, n, m, b).Branch? && Near(d, Mk(d, a, n, m, b)) == a && Far(d, Mk(d, a, n, m, b)) == b
    ensures Mk(d, a, n, m, b).node == n && Mk(d, a, n, m, b).mark == m
  {
  }

  lemma SameMembers(t: Tree, u: Tree)
    requires Inorder(t) == Inorder(u)
    ensures Nodes(t) == Nodes(u)
  {
    InorderNodes(t);
    InorderNodes(u);
  }

  lemma ZipTop(t: Tree, root: Node)
    ensures Zip(t, Top(root)) == t
  {
  }

  lemma WhichRep(t: Tree)
    requires t.Branch? && Distinct(t)
    ensures t.left.Branch? ==> Last(t.left).node != Root(t.right) && (Last(t.left).node == t.left.node <==> t.left.right == Leaf)
  {
    if t.left.Branch? {
      DropLastInorder(t.left);
      if t.left.right.Branch? { DropLastInorder(t.left.right); }
    }
  }

  /** The four calls of xx_fix for a replacement further down. */
  method MoveDeep(node: Node, rep: Node, par: Node, dir: Dir, ghost s: set<Node>,
      ghost a: Node?, ghost r: Node?, ghost holder: Node, ghost side: Dir)
    requires {node, rep, par, holder} <= s && node != rep && par != rep && dir == R && rep.left == a && node.right == r
    requires (a != null ==> a in s && a != node && a != rep) && (r != null ==> r in s && r != node && r != rep)
    requires par != node && (node.left != null ==> node.left in s && node.left != rep && node.left != node)
    requires node.par == holder && node.pdir == side
    modifies s
    ensures var h := old(Snap(s));
            var k1 := FixCells(h, par, a, R);
            var k3 := FixCells(FixCells(k1, rep, k1[node].left, L), rep, r, R);
            Snap(s) == FixCells(k3, holder, rep, side)
  {
    Fix(par, rep.left, dir, s);
    Fix(rep, node.left, L, s);
    Fix(rep, node.right, R, s);
    Fix(node.par, rep, node.pdir, s);
  }

  /** The last node of the left subtree, further down, takes the place and the mark of `node`; `old_` is the mark it had. */
  method TakeDeep(node: Node, rep: Node, ghost s: set<Node>, ghost t: Tree, ghost z: Path)
    returns (par: Node, dir: Dir, old_: int, ghost x: Tree, ghost y: Path)
    requires At(Snap(s), t, z) && t.Branch? && t.node == node
    requires t.left.Branch? && t.left.right.Branch? && Last(t.left).node == rep
    modifies s
    ensures At(Snap(s), x, y) && x == Last(t.left).left && y == Spine(t.left, Step(z, L, rep, t.mark, t.right))
    ensures par == y.Holder() && dir == y.Side() && Base(y) == Base(z) && old_ == Last(t.left).mark
    ensures Zip(x, y) == Zip(Removed(t, t.mark), z)
  {
    hide At, Snap, Zip, FixCells, Spine, Last, DropLast;
    SnapAll(s);
    Around(s, t, z);
    ghost var h, last := Snap(s), Last(t.left);
    RemoveDeep(h, t, z);
    DeepApart(h, t, z);
    var m := node.mark;
    par, dir := rep.par, rep.pdir;
    MoveDeep(node, rep, par, dir, s, Root(last.left), Root(t.right), z.Holder(), z.Side());
    Around(s, Removed(t, last.mark), z);
    old_ := rep.mark;
    ghost var l := DropLast(t.left);
    Paint(rep, m, s, L, l, last.mark, t.right, z);
    ghost var b := Step(z, L, rep, m, t.right);
    DownAt(Snap(s), L, l, rep, m, t.right, z);
    DropLastAt(Snap(s), t.left, b);
    SpineZip(t.left, b);
    SpineBase(t.left, b, Step(z, L, t.node, t.mark, t.right));
    ZipStep(L, l, rep, m, t.right, z);
    x, y := last.left, Spine(t.left, b);
  }

  /** The order and the nodes of the whole tree when a node with the same key takes a place. */
  lemma ReplacedOrder(t: Tree, z: Path, node: Node, m: int)
    requires t.Branch? && Apart(t, z) && Sorted(Inorder(Zip(t, z))) && t.node.key == node.key
    requires node !in Nodes(t) && node !in PathNodes(z)
    ensures var u := Zip(t.(node := node, mark := m), z); Sorted(Inorder(u)) && Nodes(u) == Nodes(Zip(t, z)) - {t.node} + {node}
  {
    hide Sorted, Zip, Distinct, DistinctPath, Inorder, LeftOf, RightOf;
    var u := t.(node := node, mark := m);
    ReplacedParts(t, node, m);
    ZipInorder(t, z);
    ZipInorder(u, z);
    var a, b := LeftOf(z) + Inorder(t.left), Inorder(t.right) + RightOf(z);
    assert LeftOf(z) + Inorder(t) + RightOf(z) == a + [t.node] + b;
    assert LeftOf(z) + Inorder(u) + RightOf(z) == a + [node] + b;
    SortedSplit(a, t.node, b);
    SortedSplit(a, node, b);
    ZipNodes(t, z);
    ZipNodes(u, z);
    BaseIn(z);
    BaseOutside(t, z);
    BaseOutside(u, z);
  }

  lemma ReplacedParts(t: Tree, node: Node, m: int)
    requires t.Branch? && Distinct(t) && node !in Nodes(t)
    ensures var u := t.(node := node, mark := m);
            && Inorder(t) == Inorder(t.left) + [t.node] + Inorder(t.right) && Inorder(u) == Inorder(t.left) + [node] + Inorder(t.right)
            && Nodes(u) == Nodes(t) - {t.node} + {node} && t.node in Nodes(t)
  {
  }

  /** On the fields: `node` takes over the children and the place of `n`, and keeps its own mark. */
  method TakeOver(n: Node, node: Node, ghost s: set<Node>, ghost t: Tree, ghost z: Path)
    requires At(Snap(s), t, z) && t.Branch? && t.node == n && node in s && node !in Nodes(t) && node !in PathNodes(z)
    modifies s
    ensures At(Snap(s), t.(node := node, mark := old(node.mark)), z)
  {
    hide At, Snap, Nodes, PathNodes, FixCells, Distinct;
    SnapAll(s);
    NodesAt(Snap(s), t, z);
    ReplaceAt(Snap(s), t.left, n, t.mark, t.right, z, node);
    Around(s, t, z);
    RootsIn(Snap(s), t, z);
    ChildrenApart(t);
    HolderIn(z);
    TakePlace(n, node, s);
  }

  // ----- xx_apply -----

  /** The order in which xx_apply visits the nodes: a node comes after everything below it. */
  function Postorder(t: Tree): seq<Node> {
    if t.Leaf? then [] else Postorder(t.left) + Postorder(t.right) + [t.node]
  }

  /** The nodes visited before the subtree at a place is entered. */
  function Visited(z: Path): seq<Node> {
    if z.Top? then [] else if z.side == R then Visited(z.up) + Postorder(z.sibling) else Visited(z.up)
  }

  /** Where the traversal comes from decides what is done at a node. */
  function Progress(dir: Dir, t: Tree, z: Path): seq<Node>
    requires t.Branch?
  {
    Visited(z) + match dir case P => [] case L => Postorder(t.left) case R => Postorder(t.left) + Postorder(t.right)
  }

  function Down(t: Tree): nat {
    if t.Leaf? then 0 else 3 + Down(t.left) + Down(t.right)
  }

  function Up(z: Path): nat {
    if z.Top? then 0 else if z.side == R then 1 + Up(z.up) else 2 + Down(z.sibling) + Up(z.up)
  }

  function MovesLeft(dir: Dir, t: Tree, z: Path): nat
    requires t.Branch?
  {
    Up(z) + match dir case P => Down(t) case L => 2 + Down(t.right) case R => 1
  }

  /** xx_apply with a function that notes the node. It needs no stack, and leaves the tree as it is. */
  method Apply(root: Node, ghost s: set<Node>, ghost t: Tree) returns (visited: seq<Node>)
    requires At(Snap(s), t, Top(root))
    ensures visited == Postorder(t)
  {
    hide At, Snap, Postorder;
    Around(s, t, Top(root));
    visited := [];
    NothingVisited();
    var trav := root.par;
    if trav == null {
      return;
    }
    var dir := P;
    ghost var cur, z := t, Top(root);
    Around(s, cur, z);
    PlaceOfHolder(Snap(s), t, z);
    while trav != root
      invariant trav != null && trav in s && root in s && Base(z) == root && Zip(cur, z) == t && At(Snap(s), cur, z)
      invariant trav == root ==> visited == Postorder(t)
      invariant trav != root ==> cur.Branch? && trav == cur.node && visited == Progress(dir, cur, z)
      invariant cur.Branch? && cur.node in s && cur.node.left == Root(cur.left) && cur.node.right == Root(cur.right)
      invariant cur.node.par == z.Holder() && cur.node.pdir == z.Side()
      decreases trav != root, MovesLeft(dir, cur, z)
    {
      DownAt(Snap(s), L, cur.left, cur.node, cur.mark, cur.right, z);
      DownAt(Snap(s), R, cur.right, cur.node, cur.mark, cur.left, z);
      if dir == P && trav.left != null {
        trav := trav.left;
        cur, z := cur.left, Step(z, L, cur.node, cur.mark, cur.right);
      } else if dir != R && trav.right != null {
        EnterRight(dir, cur, z);
        dir := P;
        trav := trav.right;
        cur, z := cur.right, Step(z, R, cur.node, cur.mark, cur.left);
      } else {
        VisitNode(dir, cur, z);
        visited := visited + [trav];
        dir := trav.pdir;
        trav := trav.par;
        PlaceOfHolder(Snap(s), cur, z);
        if z.Step? {
          BackUp(cur, z);
          cur, z := Mk(z.side, cur, z.node, z.mark, z.sibling), z.up;
        }
      }
      Around(s, cur, z);
    }
  }

  lemma NothingVisited()
    ensures Postorder(Leaf) == []
  {
  }

  lemma EnterRight(dir: Dir, t: Tree, z: Path)
    requires t.Branch? && dir != R && (dir == P ==> t.left == Leaf)
    ensures Visited(Step(z, R, t.node, t.mark, t.left)) == Progress(dir, t, z)
  {
  }

  /** The visit of a node completes its subtree. */
  lemma VisitNode(dir: Dir, t: Tree, z: Path)
    requires t.Branch? && (dir == P ==> t.left == Leaf) && (dir != R ==> t.right == Leaf)
    ensures Progress(dir, t, z) + [t.node] == Visited(z) + Postorder(t)
  {
  }

  /** Seen from the node above, the subtree on that side is done. */
  lemma BackUp(t: Tree, z: Path)
    requires z.Step? && z.side != P
    ensures Mk(z.side, t, z.node, z.mark, z.sibling).Branch?
    ensures Progress(z.side, Mk(z.side, t, z.node, z.mark, z.sibling), z.up) == Visited(z) + Postorder(t)
  {
  }

  /**
   * The comment above the function in rbtree.h and avl.h speaks of an in-order traversal. That is what comes out exactly when
   * no node has a right child.
   */
  lemma {:induction false} PostorderIsInorder(t: Tree)
    requires Distinct(t)
    ensures Postorder(t) == Inorder(t) <==> NoRight(t)
  {
    if t.Branch? {
      PostorderIsInorder(t.left);
      PostorderNodes(t.left);
      PostorderNodes(t.right);
      InorderNodes(t.right);
      var w, v := Inorder(t), Postorder(t);
      assert v[|v| - 1] == t.node;
      if t.right.Branch? {
        LastMember(Inorder(t.left) + [t.node], Inorder(t.right));
        assert |Inorder(t.right)| > 0;
        assert w[|w| - 1] in Members(Inorder(t.right));
      } else {
        assert v == Postorder(t.left) + [t.node] && w == Inorder(t.left) + [t.node];
        assert v == w ==> Postorder(t.left) == v[..|v| - 1] == w[..|w| - 1] == Inorder(t.left);
      }
    }
  }

  lemma LastMember(a: seq<Node>, b: seq<Node>)
    ensures b != [] ==> (a + b)[|a + b| - 1] in b
  {
  }

  predicate NoRight(t: Tree) {
    t.Branch? ==> t.right == Leaf && NoRight(t.left)
  }

  lemma {:induction false} PostorderNodes(t: Tree)
    ensures Members(Postorder(t)) == Nodes(t) && |Postorder(t)| == |Inorder(t)|
  {
    if t.Branch? {
      PostorderNodes(t.left);
      PostorderNodes(t.right);
      assert Members(Postorder(t)) == Members(Postorder(t.left)) + Members(Postorder(t.right)) + {t.node};
    }
  }
}
