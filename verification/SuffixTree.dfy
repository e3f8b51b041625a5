/**
 * The online suffix tree of src/match.c: sfx_init, sfx_build, split, canonical, sfx_match, sfx_clear.
 *
 * The edge hash table is a map from (node, first byte) to edges, node addresses are integers, and the memory
 * manager is a budget of successful allocations. What a node stands for is kept in a ghost map: `path[n]` is
 * the string spelled on the way from the root to the inner node `n`. Leaves have no label.
 */
module SuffixTree {
  import opened Text

  const SFX_MAXLEN := 0x7ffffffe

  type Node = int

  const ROOT: Node := 0
  const NULL: Node := -1

  /** struct sfxedgekey and struct sfxedge. */
  datatype Key = Key(node: Node, ch: Byte)
  datatype Edge = Edge(node: Node, start: int, end: int)

  datatype Tree = Tree(text: Bytes, edges: map<Key, Edge>, path: map<Node, Bytes>)

  // ----- what the edges spell -----

  ghost predicate InBounds(t: Tree, k: Key) {
    && k in t.edges && k.node in t.path
    && |t.path[k.node]| <= t.edges[k].start <= t.edges[k].end < |t.text|
  }

  /** Where the text position that edge `k` refers to continues the label of its node. */
  ghost function Origin(t: Tree, k: Key): int
    requires InBounds(t, k)
  {
    t.edges[k].start - |t.path[k.node]|
  }

  /** The string from the root to the far end of edge `k`, read off the text. */
  ghost function Spell(t: Tree, k: Key): Bytes
    requires InBounds(t, k)
  {
    t.text[Origin(t, k)..t.edges[k].end + 1]
  }

  /** The path for `w` ends inside edge `k` or at its far end. */
  ghost predicate Covers(t: Tree, k: Key, w: Bytes) {
    InBounds(t, k) && |t.path[k.node]| < |w| && w <= Spell(t, k)
  }

  /** There is a path from the root that spells `w`. */
  ghost predicate Spelled(t: Tree, w: Bytes) {
    w == [] || exists k :: Covers(t, k, w)
  }

  /** There is a path for `w` that uses the first `i` bytes of the text only. */
  ghost predicate SpelledBy(t: Tree, i: int, w: Bytes) {
    w == [] || exists k :: Covers(t, k, w) && Origin(t, k) + |w| <= i
  }

  // ----- the invariant, with the first `i` bytes read and the leaves of the suffixes below `j` in place -----

  ghost predicate EdgeOk(t: Tree, j: int, i: int, k: Key) {
    && InBounds(t, k)
    && t.path[k.node] + [k.ch] <= Spell(t, k)
    && Origin(t, k) < j
    && (if t.edges[k].node in t.path
        then t.edges[k].end < i && t.path[t.edges[k].node] == Spell(t, k)
        else t.edges[k].end == |t.text| - 1)
  }

  ghost predicate EdgesOk(t: Tree, j: int, i: int) {
    forall k :: k in t.edges ==> EdgeOk(t, j, i, k)
  }

  /** No label lies inside an edge, and at the end of an edge it belongs to the node there. */
  ghost predicate NoneInside(t: Tree) {
    forall k, m :: m in t.path && Covers(t, k, t.path[m]) ==> t.edges[k].node == m
  }

  ghost predicate Distinct(t: Tree) {
    forall m, n :: m in t.path && n in t.path && t.path[m] == t.path[n] ==> m == n
  }

  /** Inner nodes other than the root are reached by an edge and left by an edge. */
  ghost predicate Connected(t: Tree) {
    && ROOT in t.path && t.path[ROOT] == []
    && (forall m :: m in t.path && m != ROOT ==> exists k :: k in t.edges && t.edges[k].node == m)
    && (forall m :: m in t.path && m != ROOT ==> exists k :: k in t.edges && k.node == m)
  }

  /** The path to a leaf spells the suffix from `s` on. */
  ghost predicate HasLeaf(t: Tree, s: int) {
    exists k :: InBounds(t, k) && Origin(t, k) == s && t.edges[k].end == |t.text| - 1
  }

  ghost predicate Leaves(t: Tree, j: int) {
    forall s :: 0 <= s < j ==> HasLeaf(t, s)
  }

  /** The suffix from `j` on of the text read so far has been seen before. */
  ghost predicate Seen(text: Bytes, j: int, i: int)
    requires 0 <= j && i <= |text|
  {
    j < i ==> exists o :: o < j && OccursAt(text, text[j..i], o)
  }

  ghost predicate Inv(t: Tree, j: int, i: int) {
    && 0 <= j <= |t.text| && j <= i + 1 && 0 <= i <= |t.text|
    && EdgesOk(t, j, i) && NoneInside(t) && Distinct(t) && Connected(t) && Leaves(t, j)
    && Seen(t.text, j, i)
  }

  // ----- consequences of the invariant -----

  lemma SpelledOccurs(t: Tree, k: Key, w: Bytes)
    requires Covers(t, k, w)
    ensures OccursAt(t.text, w, Origin(t, k))
  {
  }

  lemma EdgeFacts(t: Tree, j: int, i: int, k: Key)
    requires Inv(t, j, i) && k in t.edges
    ensures EdgeOk(t, j, i, k)
  {
  }

  lemma LeafFacts(t: Tree, j: int, i: int, s: int) returns (k: Key)
    requires Inv(t, j, i) && 0 <= s < j
    ensures k in t.edges && EdgeOk(t, j, i, k) && Origin(t, k) == s && t.edges[k].end == |t.text| - 1
  {
    assert HasLeaf(t, s);
    k :| InBounds(t, k) && Origin(t, k) == s && t.edges[k].end == |t.text| - 1;
    EdgeFacts(t, j, i, k);
  }

  lemma SeenFacts(t: Tree, j: int, i: int) returns (o: int)
    requires Inv(t, j, i) && j < i
    ensures 0 <= o < j && i <= |t.text| && OccursAt(t.text, t.text[j..i], o)
  {
    o :| o < j && OccursAt(t.text, t.text[j..i], o);
  }

  lemma RootFacts(t: Tree, j: int, i: int)
    requires Inv(t, j, i)
    ensures ROOT in t.path && t.path[ROOT] == []
  {
  }

  lemma NodeFacts(t: Tree, j: int, i: int, m: Node) returns (above: Key, below: Key)
    requires Inv(t, j, i) && m in t.path && m != ROOT
    ensures above in t.edges && t.edges[above].node == m && below in t.edges && below.node == m
  {
    above :| above in t.edges && t.edges[above].node == m;
    below :| below in t.edges && below.node == m;
  }

  lemma LabelFacts(t: Tree, j: int, i: int, k: Key, m: Node)
    requires Inv(t, j, i) && m in t.path
    ensures Covers(t, k, t.path[m]) ==> t.edges[k].node == m
    ensures k.node in t.path && t.path[k.node] == t.path[m] ==> k.node == m
  {
  }

  lemma LabelSpelled(t: Tree, j: int, i: int, m: Node) returns (k: Key)
    requires Inv(t, j, i) && m in t.path && t.path[m] != []
    ensures Covers(t, k, t.path[m]) && t.edges[k].node == m
  {
    k :| k in t.edges && t.edges[k].node == m;
    assert EdgeOk(t, j, i, k);
  }

  /** The tree is deterministic: a spelled extension of a label leaves the node along the edge it names. */
  lemma {:induction false} Descend(t: Tree, j: int, i: int, n: Node, w: Bytes)
    requires Inv(t, j, i) && n in t.path && t.path[n] < w && Spelled(t, w)
    ensures var k := Key(n, w[|t.path[n]|]);
            && k in t.edges && EdgeOk(t, j, i, k)
            && (w <= Spell(t, k) || (t.edges[k].node in t.path && Spell(t, k) < w))
    decreases |w|
  {
    hide Inv, EdgesOk;
    var c :| Covers(t, c, w);
    EdgeFacts(t, j, i, c);
    LabelFacts(t, j, i, c, n);
    var m := c.node;
    if |t.path[m]| == |t.path[n]| {
      assert t.path[m] == w[..|t.path[m]|] == t.path[n];
      assert c.ch == w[|t.path[n]|];
    } else if |t.path[n]| < |t.path[m]| {
      var up := LabelSpelled(t, j, i, m);
      assert t.path[m] == w[..|t.path[m]|] && t.path[n] == w[..|t.path[n]|];
      assert t.path[n] == t.path[m][..|t.path[n]|];
      Descend(t, j, i, n, t.path[m]);
      LabelFacts(t, j, i, Key(n, w[|t.path[n]|]), m);
    }
  }

  /** Every prefix of a label is spelled by inner edges alone. */
  lemma {:induction false} LabelPrefix(t: Tree, j: int, i: int, m: Node, w: Bytes)
    requires Inv(t, j, i) && m in t.path && w <= t.path[m]
    ensures SpelledBy(t, i, w)
    decreases |t.path[m]|
  {
    hide Inv;
    if w != [] {
      var k := LabelSpelled(t, j, i, m);
      EdgeFacts(t, j, i, k);
      if |w| <= |t.path[k.node]| {
        assert w == t.path[m][..|w|] == t.path[k.node][..|w|];
        LabelPrefix(t, j, i, k.node, w);
      } else {
        assert Covers(t, k, w);
      }
    }
  }

  lemma SameSlice(text: Bytes, j: int, i: int, o: int, a: int, b: int)
    requires 0 <= j <= a <= b <= i <= |text| && OccursAt(text, text[j..i], o)
    ensures text[a..b] == text[a - j + o..b - j + o]
  {
    var u, v := text[a..b], text[a - j + o..b - j + o];
    forall x | 0 <= x < |u|
      ensures u[x] == v[x]
    {
      assert text[j..i][a - j + x] == text[o..o + (i - j)][a - j + x];
    }
  }

  lemma LeafPrefix(t: Tree, j: int, i: int, a: int, b: int)
    requires Inv(t, j, i) && 0 <= a < j && a <= b <= i <= |t.text|
    ensures SpelledBy(t, i, t.text[a..b])
  {
    hide Inv;
    var w := t.text[a..b];
    if w != [] {
      var k := LeafFacts(t, j, i, a);
      var s, p := Spell(t, k), t.path[k.node];
      assert s == t.text[a..|t.text|];
      SliceOfSlice(t.text, a, |t.text|, 0, b - a);
      assert p == s[..|p|];
      if |w| <= |p| {
        assert w == p[..|w|];
        LabelPrefix(t, j, i, k.node, w);
      } else {
        assert Covers(t, k, w);
      }
    }
  }

  /** Every substring of the text read so far is spelled. */
  lemma {:induction false} SubstringSpelled(t: Tree, j: int, i: int, a: int, b: int)
    requires Inv(t, j, i) && 0 <= a <= b <= i <= |t.text|
    ensures SpelledBy(t, i, t.text[a..b])
    decreases a
  {
    hide Inv, OccursAt, SpelledBy;
    if a < j {
      LeafPrefix(t, j, i, a, b);
    } else if a < b {
      var o := SeenFacts(t, j, i);
      SameSlice(t.text, j, i, o, a, b);
      SubstringSpelled(t, j, i, a - j + o, b - j + o);
    } else {
      assert t.text[a..b] == [];
      SpelledEmpty(t, i);
    }
  }

  lemma SpelledEmpty(t: Tree, i: int)
    ensures SpelledBy(t, i, [])
  {
  }

  /** The root paths within the text read so far spell exactly its substrings. */
  lemma SpelledExactly(t: Tree, j: int, i: int, w: Bytes)
    requires Inv(t, j, i)
    ensures SpelledBy(t, i, w) <==> Occurs(t.text[..i], w)
  {
    hide EdgesOk, NoneInside, Distinct, Connected, Leaves, Seen;
    if SpelledBy(t, i, w) {
      if w == [] {
        assert OccursAt(t.text[..i], w, 0);
      } else {
        var k :| Covers(t, k, w) && Origin(t, k) + |w| <= i;
        SpelledOccurs(t, k, w);
        var o := Origin(t, k);
        SliceOfSlice(t.text, 0, i, o, o + |w|);
        assert t.text[0..i] == t.text[..i];
        assert OccursAt(t.text[..i], w, o);
      }
    }
    if Occurs(t.text[..i], w) {
      var s :| OccursAt(t.text[..i], w, s);
      assert w == t.text[s..s + |w|];
      SubstringSpelled(t, j, i, s, s + |w|);
    }
  }

  // ----- the two ways to extend the tree -----

  /** No edge leads to `n`, and it is not an inner node. */
  ghost predicate Unused(t: Tree, n: Node) {
    n !in t.path && n != NULL && forall k :: k in t.edges ==> k.node != n && t.edges[k].node != n
  }

  /** A leaf for the suffix from `j` on, below the inner node that spells `text[j..i]`. */
  function AddLeaf(t: Tree, n: Node, i: int, leaf: Node): Tree
    requires 0 <= i < |t.text|
  {
    t.(edges := t.edges[Key(n, t.text[i]) := Edge(leaf, i, |t.text| - 1)])
  }

  /** An inner node `mid` at offset `off` of edge `k`, which keeps the rest of the edge below it. */
  function CutEdge(t: Tree, k: Key, off: int, mid: Node): Tree
    requires InBounds(t, k) && 0 < off <= t.edges[k].end - t.edges[k].start
  {
    var e := t.edges[k];
    var cut := e.start + off;
    Tree(t.text, t.edges[Key(mid, t.text[cut]) := Edge(e.node, cut, e.end)][k := Edge(mid, e.start, cut - 1)],
      t.path[mid := t.text[e.start - |t.path[k.node]|..cut]])
  }

  lemma SeenNext(text: Bytes, j: int, i: int)
    requires 0 <= j && i <= |text| && Seen(text, j, i)
    ensures Seen(text, j + 1, i)
  {
    if j + 1 < i {
      var o :| o < j && OccursAt(text, text[j..i], o);
      SameSlice(text, j, i, o, j + 1, i);
      assert OccursAt(text, text[j + 1..i], o + 1);
    }
  }

  lemma AddLeafLabels(t: Tree, j: int, i: int, n: Node, leaf: Node)
    requires Inv(t, j, i) && 0 <= j <= i < |t.text| && n in t.path && t.path[n] == t.text[j..i]
    requires Key(n, t.text[i]) !in t.edges && Unused(t, leaf)
    ensures NoneInside(AddLeaf(t, n, i, leaf))
  {
    hide Inv, Unused;
    var r := AddLeaf(t, n, i, leaf);
    forall k, m | m in r.path && Covers(r, k, r.path[m])
      ensures r.edges[k].node == m
    {
      if k == Key(n, t.text[i]) {
        assert t.path[n] < t.path[m] && t.path[m] != [];
        var up := LabelSpelled(t, j, i, m);
        Descend(t, j, i, n, t.path[m]);
      } else {
        assert Covers(t, k, t.path[m]);
        LabelFacts(t, j, i, k, m);
      }
    }
  }

  lemma AddLeafLeaves(t: Tree, j: int, i: int, n: Node, leaf: Node)
    requires Inv(t, j, i) && 0 <= j <= i < |t.text| && n in t.path && t.path[n] == t.text[j..i]
    requires Key(n, t.text[i]) !in t.edges
    ensures Leaves(AddLeaf(t, n, i, leaf), j + 1)
  {
    hide Inv;
    var r := AddLeaf(t, n, i, leaf);
    forall s | 0 <= s < j + 1
      ensures HasLeaf(r, s)
    {
      var k := Key(n, t.text[i]);
      if s < j { k := LeafFacts(t, j, i, s); }
      assert InBounds(r, k) && Origin(r, k) == s;
    }
  }

  lemma AddLeafConnected(t: Tree, j: int, i: int, n: Node, leaf: Node)
    requires Inv(t, j, i) && i < |t.text| && Key(n, t.text[i]) !in t.edges
    ensures Connected(AddLeaf(t, n, i, leaf))
  {
    hide NoneInside, Distinct, Leaves, Seen, EdgesOk;
    var r := AddLeaf(t, n, i, leaf);
    forall m | m in r.path && m != ROOT
      ensures exists k :: k in r.edges && r.edges[k].node == m
      ensures exists k :: k in r.edges && k.node == m
    {
      var above, below := NodeFacts(t, j, i, m);
      assert r.edges[above].node == m && below in r.edges;
    }
  }

  lemma AddLeafKeeps(t: Tree, j: int, i: int, n: Node, leaf: Node)
    requires Inv(t, j, i) && 0 <= j <= i < |t.text| && n in t.path && t.path[n] == t.text[j..i]
    requires Key(n, t.text[i]) !in t.edges && Unused(t, leaf)
    ensures Inv(AddLeaf(t, n, i, leaf), j + 1, i)
  {
    hide NoneInside, Connected, Leaves, Seen;
    var r := AddLeaf(t, n, i, leaf);
    forall k | k in r.edges
      ensures EdgeOk(r, j + 1, i, k)
    {
      if k == Key(n, t.text[i]) {
        assert Spell(r, k) == t.text[j..];
      } else {
        EdgeFacts(t, j, i, k);
        assert Spell(r, k) == Spell(t, k);
      }
    }
    AddLeafLabels(t, j, i, n, leaf);
    AddLeafLeaves(t, j, i, n, leaf);
    AddLeafConnected(t, j, i, n, leaf);
    SeenNext(t.text, j, i);
  }

  /** A nonempty string ends on one edge only. */
  lemma OneCover(t: Tree, j: int, i: int, a: Key, b: Key, w: Bytes)
    requires Inv(t, j, i) && Covers(t, a, w) && Covers(t, b, w)
    ensures a == b
  {
    hide Inv;
    EdgeFacts(t, j, i, a);
    EdgeFacts(t, j, i, b);
    var m, n := a.node, b.node;
    assert w == Spell(t, a)[..|w|] == Spell(t, b)[..|w|];
    assert t.path[m] == Spell(t, a)[..|t.path[m]|] == Spell(t, b)[..|t.path[m]|];
    assert t.path[n] == Spell(t, b)[..|t.path[n]|] == Spell(t, a)[..|t.path[n]|];
    LabelFacts(t, j, i, a, n);
    LabelFacts(t, j, i, b, m);
    if |t.path[m]| == |t.path[n]| {
      assert a.ch == Spell(t, a)[|t.path[m]|] == w[|t.path[m]|] == Spell(t, b)[|t.path[n]|] == b.ch;
    }
  }

  lemma CutEdgeLabels(t: Tree, j: int, i: int, k: Key, off: int, mid: Node)
    requires Inv(t, j, i) && k in t.edges && EdgeOk(t, j, i, k)
    requires 0 < off <= t.edges[k].end - t.edges[k].start && Unused(t, mid)
    ensures NoneInside(CutEdge(t, k, off, mid))
  {
    hide Inv;
    var r := CutEdge(t, k, off, mid);
    forall c, m | m in r.path && Covers(r, c, r.path[m])
      ensures r.edges[c].node == m
    {
      if c == k || c == Key(mid, t.text[t.edges[k].start + off]) {
        CutPartLabel(t, j, i, k, off, mid, c, m);
      } else {
        CutOtherLabel(t, j, i, k, off, mid, c, m);
      }
    }
  }

  lemma CutPartLabel(t: Tree, j: int, i: int, k: Key, off: int, mid: Node, c: Key, m: Node)
    requires Inv(t, j, i) && k in t.edges && EdgeOk(t, j, i, k)
    requires 0 < off <= t.edges[k].end - t.edges[k].start && Unused(t, mid)
    requires var r := CutEdge(t, k, off, mid); m in r.path && Covers(r, c, r.path[m])
    requires c == k || c == Key(mid, t.text[t.edges[k].start + off])
    ensures CutEdge(t, k, off, mid).edges[c].node == m
  {
    hide Inv;
    var r := CutEdge(t, k, off, mid);
    var low, v := Key(mid, t.text[t.edges[k].start + off]), r.path[m];
    assert Spell(r, k) == r.path[mid] && Spell(r, low) == Spell(t, k) && r.path[mid] < Spell(t, k);
    if m != mid {
      assert v == Spell(r, c)[..|v|] == Spell(t, k)[..|v|];
      assert Covers(t, k, v);
      LabelFacts(t, j, i, k, m);
    }
  }

  lemma CutOtherLabel(t: Tree, j: int, i: int, k: Key, off: int, mid: Node, c: Key, m: Node)
    requires Inv(t, j, i) && k in t.edges && EdgeOk(t, j, i, k)
    requires 0 < off <= t.edges[k].end - t.edges[k].start && Unused(t, mid)
    requires var r := CutEdge(t, k, off, mid); m in r.path && Covers(r, c, r.path[m])
    requires c != k && c != Key(mid, t.text[t.edges[k].start + off])
    ensures CutEdge(t, k, off, mid).edges[c].node == m
  {
    hide Inv;
    var r := CutEdge(t, k, off, mid);
    EdgeFacts(t, j, i, c);
    assert Spell(r, c) == Spell(t, c);
    assert Covers(t, c, r.path[m]);
    if m == mid {
      assert Covers(t, k, r.path[mid]);
      OneCover(t, j, i, c, k, r.path[mid]);
    } else {
      LabelFacts(t, j, i, c, m);
    }
  }

  lemma CutEdgeDistinct(t: Tree, j: int, i: int, k: Key, off: int, mid: Node)
    requires Inv(t, j, i) && k in t.edges && EdgeOk(t, j, i, k)
    requires 0 < off <= t.edges[k].end - t.edges[k].start && Unused(t, mid)
    ensures Distinct(CutEdge(t, k, off, mid))
  {
    hide EdgesOk, NoneInside, Connected, Leaves, Seen;
    var r := CutEdge(t, k, off, mid);
    var w := r.path[mid];
    assert w < Spell(t, k);
    assert Covers(t, k, w);
    forall m | m in t.path
      ensures t.path[m] != w
    {
      LabelFacts(t, j, i, k, m);
    }
  }

  lemma CutEdgeLeaves(t: Tree, j: int, i: int, k: Key, off: int, mid: Node)
    requires Inv(t, j, i) && k in t.edges && EdgeOk(t, j, i, k)
    requires 0 < off <= t.edges[k].end - t.edges[k].start && Unused(t, mid)
    ensures Leaves(CutEdge(t, k, off, mid), j)
  {
    hide Inv;
    var r := CutEdge(t, k, off, mid);
    forall s | 0 <= s < j
      ensures HasLeaf(r, s)
    {
      var c := LeafFacts(t, j, i, s);
      if c == k { c := Key(mid, t.text[t.edges[k].start + off]); }
      assert InBounds(r, c) && Origin(r, c) == s;
    }
  }

  lemma CutEdgeConnected(t: Tree, j: int, i: int, k: Key, off: int, mid: Node)
    requires Inv(t, j, i) && k in t.edges && EdgeOk(t, j, i, k)
    requires 0 < off <= t.edges[k].end - t.edges[k].start && Unused(t, mid)
    ensures Connected(CutEdge(t, k, off, mid))
  {
    hide Inv;
    RootFacts(t, j, i);
    var r := CutEdge(t, k, off, mid);
    var low := Key(mid, t.text[t.edges[k].start + off]);
    forall m | m in r.path && m != ROOT
      ensures exists c :: c in r.edges && r.edges[c].node == m
      ensures exists c :: c in r.edges && c.node == m
    {
      if m == mid {
        assert r.edges[k].node == m && low in r.edges;
      } else {
        var above, below := NodeFacts(t, j, i, m);
        EdgeFacts(t, j, i, above);
        assert r.edges[if above == k then low else above].node == m && below in r.edges;
      }
    }
  }

  lemma EdgeIn(t: Tree, j: int, i: int, k: Key)
    requires EdgeOk(t, j, i, k)
    ensures InBounds(t, k)
  {
  }

  lemma CutEdgeOk(t: Tree, j: int, i: int, k: Key, off: int, mid: Node, c: Key)
    requires Inv(t, j, i) && k in t.edges && EdgeOk(t, j, i, k)
    requires 0 < off <= t.edges[k].end - t.edges[k].start && t.edges[k].start + off <= i
    requires Unused(t, mid) && c in CutEdge(t, k, off, mid).edges
    ensures EdgeOk(CutEdge(t, k, off, mid), j, i, c)
  {
    hide Inv;
    var r := CutEdge(t, k, off, mid);
    var low := Key(mid, t.text[t.edges[k].start + off]);
    if c == low {
      assert Spell(r, low) == Spell(t, k);
    } else if c == k {
      assert Spell(r, k) == r.path[mid];
    } else {
      EdgeFacts(t, j, i, c);
      assert Spell(r, c) == Spell(t, c);
    }
  }

  lemma CutEdgeKeeps(t: Tree, j: int, i: int, k: Key, off: int, mid: Node)
    requires Inv(t, j, i) && k in t.edges && EdgeOk(t, j, i, k)
    requires 0 < off <= t.edges[k].end - t.edges[k].start && t.edges[k].start + off <= i
    requires Unused(t, mid)
    ensures Inv(CutEdge(t, k, off, mid), j, i)
  {
    hide NoneInside, Distinct, Connected, Leaves, Seen, EdgeOk, Unused;
    EdgeIn(t, j, i, k);
    var r := CutEdge(t, k, off, mid);
    forall c | c in r.edges
      ensures EdgeOk(r, j, i, c)
    {
      CutEdgeOk(t, j, i, k, off, mid, c);
    }
    CutEdgeLabels(t, j, i, k, off, mid);
    CutEdgeDistinct(t, j, i, k, off, mid);
    CutEdgeLeaves(t, j, i, k, off, mid);
    CutEdgeConnected(t, j, i, k, off, mid);
  }

  // ----- suffix links and the active point -----

  /** Inner nodes other than the root and the pending ones link to the node whose path lacks the first byte. */
  ghost predicate Links(t: Tree, sptr: map<Node, Node>, pending: set<Node>) {
    forall m :: m in t.path && m != ROOT && m !in pending ==>
      m in sptr && sptr[m] in t.path && t.path[m] != [] && t.path[sptr[m]] == t.path[m][1..]
  }

  /**
   * `node` and `start` give the place of `text[j..i]` with every whole edge taken. After the root got its edge
   * for byte `i` there is no suffix left, and `start` is one past its place.
   */
  ghost predicate Active(t: Tree, j: int, i: int, node: Node, start: int) {
    && node in t.path && 0 <= j && 0 <= i <= |t.text|
    && if j <= i then
      && start == j + |t.path[node]| <= i && t.path[node] == t.text[j..start]
      && (start < i ==> OnEdge(t, Key(node, t.text[start]), t.text[j..i]))
    else
      node == ROOT && start == i + 1 == j && i < |t.text| && Key(ROOT, t.text[i]) in t.edges
  }

  /** `w` ends inside edge `k`, before its far end. */
  ghost predicate OnEdge(t: Tree, k: Key, w: Bytes) {
    InBounds(t, k) && w < Spell(t, k)
  }

  /** The byte that follows some earlier occurrence of the path of `m` is not byte `i`. */
  ghost predicate Branches(t: Tree, i: int, m: Node) {
    && m in t.path && i < |t.text|
    && exists o :: o + |t.path[m]| < i && OccursAt(t.text, t.path[m], o) && t.text[o + |t.path[m]|] != t.text[i]
  }

  lemma CoverContinues(t: Tree, j: int, i: int, k: Key)
    requires Inv(t, j, i) && 0 <= j <= i < |t.text| && k in t.edges && t.text[j..i + 1] <= Spell(t, k)
    ensures Inv(t, j, i + 1)
  {
    hide NoneInside, Distinct, Connected, Leaves;
    EdgeFacts(t, j, i, k);
    assert OccursAt(t.text, t.text[j..i + 1], Origin(t, k));
    forall c | c in t.edges
      ensures EdgeOk(t, j, i + 1, c)
    {
      EdgeFacts(t, j, i, c);
    }
  }

  lemma NodeBranches(t: Tree, j: int, i: int, n: Node)
    requires Inv(t, j, i) && 0 <= j <= i < |t.text| && n in t.path && n != ROOT && t.path[n] == t.text[j..i]
    requires Key(n, t.text[i]) !in t.edges
    ensures Branches(t, i, n)
  {
    hide Inv;
    var _, k := NodeFacts(t, j, i, n);
    EdgeFacts(t, j, i, k);
    assert Spell(t, k)[|t.path[n]|] == k.ch;
    assert OccursAt(t.text, t.path[n], Origin(t, k)) by {
      assert t.path[n] == Spell(t, k)[..|t.path[n]|];
    }
  }

  lemma CutBranches(t: Tree, j: int, i: int, k: Key, off: int, mid: Node)
    requires Inv(t, j, i) && 0 <= j <= i < |t.text| && k in t.edges && OnEdge(t, k, t.text[j..i])
    requires 0 < off == i - j - |t.path[k.node]| && t.text[t.edges[k].start + off] != t.text[i] && Unused(t, mid)
    ensures CutEdge(t, k, off, mid).path[mid] == t.text[j..i]
    ensures t.edges[k].start + off <= i
    ensures Branches(CutEdge(t, k, off, mid), i, mid)
  {
    hide Inv, Unused;
    var r := CutEdge(t, k, off, mid);
    EdgeFacts(t, j, i, k);
    assert r.path[mid] == Spell(t, k)[..i - j];
    assert OccursAt(t.text, r.path[mid], Origin(t, k));
  }

  /** If the suffix before has branched, the suffix from `j` on has been followed by another byte than byte `i`. */
  lemma BranchFollows(t: Tree, j: int, i: int, last: Node) returns (x: Byte)
    requires Inv(t, j, i) && 0 < j <= i && Branches(t, i, last) && t.path[last] == t.text[j - 1..i]
    ensures x != t.text[i] && Spelled(t, t.text[j..i] + [x])
  {
    hide Inv, SpelledBy, Spelled;
    var o :| o + |t.path[last]| < i && OccursAt(t.text, t.path[last], o) && t.text[o + |t.path[last]|] != t.text[i];
    x := t.text[o + |t.path[last]|];
    NextSlice(t.text, t.path[last], o);
    SubstringSpelled(t, j, i, o + 1, o + |t.path[last]| + 1);
    SpelledWhole(t, i, t.text[j..i] + [x]);
  }

  lemma NextSlice(text: Bytes, p: Bytes, o: int)
    requires OccursAt(text, p, o) && 0 < |p| && o + |p| < |text|
    ensures text[o + 1..o + |p| + 1] == p[1..] + [text[o + |p|]]
  {
    assert p[1..] == text[o + 1..o + |p|];
  }

  lemma SpelledWhole(t: Tree, i: int, w: Bytes)
    requires SpelledBy(t, i, w)
    ensures Spelled(t, w)
  {
  }

  /** Then, if the suffix from `j` on ends on an edge, byte `i` does not continue it there. */
  lemma LinkTargetIsNode(t: Tree, j: int, i: int, last: Node, node: Node, start: int)
    requires Inv(t, j, i) && 0 < j <= i < |t.text| && Active(t, j, i, node, start) && start < i
    requires Branches(t, i, last) && t.path[last] == t.text[j - 1..i]
    ensures t.text[t.edges[Key(node, t.text[start])].start + (i - start)] != t.text[i]
  {
    hide Inv, Branches, Spelled;
    var x := BranchFollows(t, j, i, last);
    var v := t.text[j..i] + [x];
    assert t.path[node] == v[..|t.path[node]|];
    assert v[|t.path[node]|] == t.text[start];
    Descend(t, j, i, node, v);
    var k := Key(node, t.text[start]);
    assert v[i - j] == Spell(t, k)[i - j];
  }

  /** `r` is `t` with the leaf of the suffix from `j` on, which hangs below `cur`. */
  ghost predicate Extended(t: Tree, r: Tree, j: int, i: int, cur: Node) {
    && 0 <= j <= i < |t.text| && r.text == t.text && Inv(r, j + 1, i)
    && cur in r.path && r.path[cur] == r.text[j..i]
    && (cur != ROOT ==> Branches(r, i, cur))
    && (j == i ==> cur == ROOT && Key(ROOT, r.text[i]) in r.edges)
  }

  lemma ExtendAtNode(t: Tree, j: int, i: int, node: Node, leaf: Node)
    requires Inv(t, j, i) && 0 <= j <= i < |t.text| && Active(t, j, i, node, i) && Unused(t, leaf)
    requires Key(node, t.text[i]) !in t.edges
    ensures Extended(t, AddLeaf(t, node, i, leaf), j, i, node)
  {
    hide Inv, Unused, Branches;
    AddLeafKeeps(t, j, i, node, leaf);
    RootFacts(t, j, i);
    if node != ROOT {
      NodeBranches(t, j, i, node);
      BranchesLater(t, AddLeaf(t, node, i, leaf), i, node);
      LabelSpelledNonempty(t, j, i, node);
    }
  }

  lemma BranchesLater(t: Tree, r: Tree, i: int, m: Node)
    requires Branches(t, i, m) && r.text == t.text && m in r.path && r.path[m] == t.path[m]
    ensures Branches(r, i, m)
  {
  }

  lemma LabelSpelledNonempty(t: Tree, j: int, i: int, m: Node)
    requires Inv(t, j, i) && m in t.path && m != ROOT
    ensures t.path[m] != []
  {
  }

  lemma ExtendOnEdge(t: Tree, j: int, i: int, node: Node, start: int, mid: Node, leaf: Node)
    requires Inv(t, j, i) && 0 <= j <= i < |t.text| && Active(t, j, i, node, start) && start < i
    requires Unused(t, mid) && Unused(t, leaf) && mid != leaf && mid != ROOT
    requires t.text[t.edges[Key(node, t.text[start])].start + (i - start)] != t.text[i]
    ensures Extended(t, AddLeaf(CutEdge(t, Key(node, t.text[start]), i - start, mid), mid, i, leaf), j, i, mid)
  {
    hide Inv, Branches, Spelled;
    var k := Key(node, t.text[start]);
    EdgeFacts(t, j, i, k);
    CutBranches(t, j, i, k, i - start, mid);
    CutEdgeKeeps(t, j, i, k, i - start, mid);
    var c := CutEdge(t, k, i - start, mid);
    AddLeafKeeps(c, j, i, mid, leaf);
    BranchesLater(c, AddLeaf(c, mid, i, leaf), i, mid);
  }

  lemma StopAtNode(t: Tree, j: int, i: int, node: Node, start: int)
    requires Inv(t, j, i) && i < |t.text| && Active(t, j, i, node, start) && i <= start
    requires Key(node, t.text[i]) in t.edges
    ensures Inv(t, j, i + 1)
  {
    hide Inv;
    if j <= i {
      var k := Key(node, t.text[i]);
      EdgeFacts(t, j, i, k);
      assert t.text[j..i + 1] == t.path[node] + [k.ch];
      CoverContinues(t, j, i, k);
    } else {
      NothingLeft(t, j, i);
    }
  }

  lemma NothingLeft(t: Tree, j: int, i: int)
    requires Inv(t, j, i) && j == i + 1 && i < |t.text|
    ensures Inv(t, j, i + 1)
  {
    hide NoneInside, Distinct, Connected, Leaves;
    forall c | c in t.edges ensures EdgeOk(t, j, i + 1, c) { EdgeFacts(t, j, i, c); }
  }

  lemma StopOnEdge(t: Tree, j: int, i: int, node: Node, start: int)
    requires Inv(t, j, i) && 0 <= j <= i < |t.text| && Active(t, j, i, node, start) && start < i
    requires t.text[t.edges[Key(node, t.text[start])].start + (i - start)] == t.text[i]
    ensures Inv(t, j, i + 1)
  {
    hide Inv;
    var k := Key(node, t.text[start]);
    EdgeFacts(t, j, i, k);
    assert Spell(t, k)[i - j] == t.text[i];
    assert t.text[j..i + 1] == t.text[j..i] + [t.text[i]];
    CoverContinues(t, j, i, k);
  }

  /** One round of canonical's loop: an edge no longer than what is left ends at an inner node. */
  lemma WholeEdge(t: Tree, j: int, i: int, node: Node, start: int)
    requires Inv(t, j, i) && 0 <= j <= start < i <= |t.text| && node in t.path
    requires start == j + |t.path[node]| && t.path[node] == t.text[j..start]
    ensures var k := Key(node, t.text[start]);
            && k in t.edges && InBounds(t, k) && 0 <= t.edges[k].start <= t.edges[k].end < |t.text|
            && (var rest := start + t.edges[k].end - t.edges[k].start + 1;
                if rest <= i then t.edges[k].node in t.path && t.path[t.edges[k].node] == t.text[j..rest]
                else OnEdge(t, k, t.text[j..i]))
  {
    hide Inv, SpelledBy, Spelled;
    var w := t.text[j..i];
    SubstringSpelled(t, j, i, j, i);
    SpelledWhole(t, i, w);
    assert t.path[node] == w[..start - j] && w[start - j] == t.text[start];
    Descend(t, j, i, node, w);
    var k := Key(node, t.text[start]);
    if |Spell(t, k)| <= |w| {
      assert Spell(t, k) == w[..|Spell(t, k)|] == t.text[j..j + |Spell(t, k)|];
    }
  }

  /** A new leaf, or a new inner node and a new leaf, disturb no link. */
  lemma LinksGrow(t: Tree, sptr: map<Node, Node>, pending: set<Node>, r: Tree, sptr2: map<Node, Node>, added: set<Node>)
    requires Links(t, sptr, pending)
    requires forall m :: m in r.path && m !in added ==> m in t.path && r.path[m] == t.path[m]
    requires forall m :: m in t.path ==> m in r.path && r.path[m] == t.path[m]
    requires forall m :: m in t.path && m in sptr ==> m in sptr2 && sptr2[m] == sptr[m]
    ensures Links(r, sptr2, pending + added)
  {
  }

  lemma LinkSet(t: Tree, sptr: map<Node, Node>, pending: set<Node>, last: Node, cur: Node)
    requires Links(t, sptr, pending) && last in t.path && cur in t.path
    requires t.path[last] != [] && t.path[cur] == t.path[last][1..]
    ensures Links(t, sptr[last := cur], pending - {last})
  {
  }

  lemma LinkFacts(t: Tree, sptr: map<Node, Node>, pending: set<Node>, m: Node)
    requires Links(t, sptr, pending) && m in t.path && m != ROOT && m !in pending
    ensures m in sptr && sptr[m] in t.path && t.path[m] != [] && t.path[sptr[m]] == t.path[m][1..]
  {
  }

  lemma TailSlice(text: Bytes, j: int, b: int)
    requires 0 <= j < b <= |text|
    ensures text[j..b][1..] == text[j + 1..b] && text[j..b] != []
  {
  }

  lemma RootDone(t: Tree, j: int, i: int)
    requires Inv(t, j, i) && i < |t.text| && j == i + 1 && Key(ROOT, t.text[i]) in t.edges
    ensures Active(t, j, i, ROOT, j)
  {
  }

  lemma ActiveFacts(t: Tree, j: int, i: int, node: Node, start: int)
    requires Active(t, j, i, node, start)
    ensures node in t.path && (i < j || i < start ==> node == ROOT && start == i + 1 == j)
    ensures j <= i ==> start == j + |t.path[node]| <= i && t.path[node] == t.text[j..start]
    ensures i <= start ==> Active(t, j, i, node, if j <= i then i else i + 1)
  {
  }

  lemma EmptyTree(t: Tree, sptr: map<Node, Node>)
    requires t.edges == map[] && t.path == map[ROOT := []]
    ensures Inv(t, 0, 0) && Active(t, 0, 0, ROOT, 0) && Links(t, sptr, {}) && Forked(t)
  {
  }

  /** One step of sfx_match from a node whose path is the part of the pattern read so far. */
  lemma MatchStep(t: Tree, j: int, n: int, cur: Node, pat: Bytes, cp: int)
    requires Inv(t, j, n) && cur in t.path && 0 <= cp < |pat| && t.path[cur] == pat[..cp]
    ensures var k := Key(cur, pat[cp]);
            if k !in t.edges then !Spelled(t, pat) else
            && EdgeOk(t, j, n, k)
            && (var len := t.edges[k].end - t.edges[k].start + 1;
                var m := if |pat| - cp < len then |pat| - cp else len;
                if t.text[t.edges[k].start..t.edges[k].start + m] != pat[cp..cp + m] then !Spelled(t, pat)
                else Covers(t, k, pat[..cp + m]) &&
                     (cp + m == |pat| || (if t.edges[k].node in t.path then t.path[t.edges[k].node] == pat[..cp + m]
                                          else !Spelled(t, pat))))
  {
    hide Inv, Spelled, EdgeOk;
    var k := Key(cur, pat[cp]);
    if Spelled(t, pat) {
      Descend(t, j, n, cur, pat);
    }
    if k in t.edges {
      EdgeFacts(t, j, n, k);
      var s := Spelling(t, j, n, k);
      var len := t.edges[k].end - t.edges[k].start + 1;
      var m := if |pat| - cp < len then |pat| - cp else len;
      SpellPart(t, j, n, k, m);
      SamePart(s, pat, cp, m);
      if Spelled(t, pat) {
        assert s[..cp + m] == pat[..cp + m];
      }
    }
  }

  /** The string of an edge, and where it ends. */
  lemma Spelling(t: Tree, j: int, i: int, k: Key) returns (s: Bytes)
    requires EdgeOk(t, j, i, k)
    ensures InBounds(t, k) && s == Spell(t, k) && t.path[k.node] < s && |s| == |t.path[k.node]| + t.edges[k].end - t.edges[k].start + 1
    ensures t.edges[k].node in t.path ==> t.path[t.edges[k].node] == s
  {
    s := Spell(t, k);
  }

  lemma SliceOfSlice(text: Bytes, a: int, b: int, c: int, d: int)
    requires 0 <= a <= b <= |text| && 0 <= c <= d <= b - a
    ensures text[a..b][c..d] == text[a + c..a + d]
  {
    var x, y := text[a..b][c..d], text[a + c..a + d];
    assert |x| == |y|;
    forall i | 0 <= i < |x|
      ensures x[i] == y[i]
    {
      assert text[a..b][c + i] == text[a + (c + i)];
    }
  }

  lemma SpellPart(t: Tree, j: int, i: int, k: Key, m: int)
    requires EdgeOk(t, j, i, k) && 0 <= m <= t.edges[k].end - t.edges[k].start + 1
    ensures t.text[t.edges[k].start..t.edges[k].start + m] == Spell(t, k)[|t.path[k.node]|..|t.path[k.node]| + m]
  {
    var o, c := Origin(t, k), |t.path[k.node]|;
    SliceOfSlice(t.text, o, t.edges[k].end + 1, c, c + m);
  }

  /** Strings that begin alike are compared further on. */
  lemma SamePart(s: Bytes, p: Bytes, c: int, m: int)
    requires 0 <= c && 0 <= m && c + m <= |s| && c + m <= |p| && s[..c] == p[..c]
    ensures s[c..c + m] == p[c..c + m] <==> s[..c + m] == p[..c + m]
  {
    assert s[..c + m] == s[..c] + s[c..c + m];
    assert p[..c + m] == p[..c] + p[c..c + m];
  }

  lemma SpelledMeansOccurs(t: Tree, j: int, w: Bytes)
    requires Inv(t, j, |t.text|)
    ensures Spelled(t, w) <==> Occurs(t.text, w)
  {
    hide NoneInside, Distinct, Connected, Leaves, Seen;
    SpelledExactly(t, j, |t.text|, w);
    assert t.text[..|t.text|] == t.text;
    if Spelled(t, w) && w != [] {
      var k :| Covers(t, k, w);
      SpelledOccurs(t, k, w);
    }
  }

  // ----- what memory is asked for -----

  datatype Request = ForEdge | ForNode

  /**
   * How a construction ends. A refused request for a node is noticed. One for an edge is not: newedge clears the key behind
   * the edge it did not get, and what follows is undefined.
   */
  datatype Status = Done | Refused | Undefined

  /** With `mem` requests left to be served. */
  function Answer(asked: seq<Request>, mem: nat): Status {
    if |asked| <= mem then Done else if asked[mem] == ForNode then Refused else Undefined
  }

  lemma AnswerBoth(a: seq<Request>, b: seq<Request>, mem: nat)
    ensures Answer(a + b, mem) == if |a| <= mem then Answer(b, mem - |a|) else Answer(a, mem)
  {
  }

  /** The suffix from `j` on of the first `i` bytes has occurred before, followed by different bytes. */
  ghost predicate Forks(text: Bytes, j: int, i: int)
    requires 0 <= j <= i <= |text|
  {
    exists o, u :: o < j && u < j && OccursAt(text, text[j..i], o) && OccursAt(text, text[j..i], u) && text[o + (i - j)] != text[u + (i - j)]
  }

  /** Below a node there is an edge more, with its leaf; inside an edge a node comes first, with the edge it cuts off. */
  ghost function LeafRequests(text: Bytes, j: int, i: int): seq<Request>
    requires 0 <= j <= i <= |text|
  {
    if j == i || Forks(text, j, i) then [ForEdge, ForNode] else [ForNode, ForEdge, ForEdge, ForNode]
  }

  /** All requests from the byte at `i` on, when the suffixes below `j` have their leaves. They depend on the text alone. */
  ghost function Requests(text: Bytes, j: int, i: int): (r: seq<Request>)
    requires 0 <= j <= i + 1 && i <= |text| && (i == |text| ==> j <= i)
    ensures |r| <= 4 * (|text| - j)
    decreases |text| - i, i + 1 - j
  {
    if i == |text| then []
    else if Seen(text, j, i + 1) then Requests(text, j, i + 1)
    else LeafRequests(text, j, i) + Requests(text, j + 1, i)
  }

  /** What has been seen with its next byte is continued in the tree by that byte. */
  lemma SeenContinues(t: Tree, j: int, i: int, node: Node, o: int)
    requires Inv(t, j, i) && 0 <= j <= i < |t.text| && node in t.path && |t.path[node]| <= i - j && t.path[node] == t.text[j..j + |t.path[node]|]
    requires 0 <= o < j && OccursAt(t.text, t.text[j..i], o)
    ensures var v := t.text[o..o + (i - j) + 1];
            && v == t.text[j..i] + [t.text[o + (i - j)]]
            && (var k := Key(node, v[|t.path[node]|]);
                k in t.edges && EdgeOk(t, j, i, k) && (v <= Spell(t, k) || (t.edges[k].node in t.path && Spell(t, k) < v)))
  {
    hide Inv, SpelledBy, Spelled;
    var v := t.text[o..o + (i - j) + 1];
    assert v == t.text[o..o + (i - j)] + [t.text[o + (i - j)]];
    SubstringSpelled(t, j, i, o, o + (i - j) + 1);
    SpelledWhole(t, i, v);
    assert t.path[node] == v[..|t.path[node]|];
    Descend(t, j, i, node, v);
  }

  /** A node that lacks the next byte: it has not been seen, and what it has been followed by forks. */
  lemma NodeRequests(t: Tree, j: int, i: int, node: Node)
    requires Inv(t, j, i) && 0 <= j <= i < |t.text| && node in t.path && t.path[node] == t.text[j..i] && Forked(t)
    requires Key(node, t.text[i]) !in t.edges
    ensures Requests(t.text, j, i) == [ForEdge, ForNode] + Requests(t.text, j + 1, i)
  {
    hide Inv, Forked, Forks, EdgeOk, Spell;
    if Seen(t.text, j, i + 1) {
      var o :| o < j && OccursAt(t.text, t.text[j..i + 1], o);
      SeenShorter(t.text, j, i, o);
      SeenContinues(t, j, i, node, o);
    }
    if j < i { NodeForks(t, j, i, node); }
  }

  lemma NodeForks(t: Tree, j: int, i: int, node: Node)
    requires Inv(t, j, i) && 0 <= j < i < |t.text| && node in t.path && t.path[node] == t.text[j..i] && Forked(t)
    ensures Forks(t.text, j, i)
  {
    hide Inv, Forked, OccursAt, InBounds;
    RootFacts(t, j, i);
    var a, b := ForkedFacts(t, node);
    ForkOccurs(t, j, i, a);
    ForkOccurs(t, j, i, b);
  }

  lemma SeenShorter(text: Bytes, j: int, i: int, o: int)
    requires 0 <= j <= i < |text| && OccursAt(text, text[j..i + 1], o)
    ensures OccursAt(text, text[j..i], o) && text[o + (i - j)] == text[i]
  {
    assert text[j..i] == text[j..i + 1][..i - j];
  }

  /** The label of a node occurs where its edges come from. */
  lemma ForkOccurs(t: Tree, j: int, i: int, k: Key)
    requires Inv(t, j, i) && 0 <= j <= i < |t.text| && k in t.edges && k.node in t.path && t.path[k.node] == t.text[j..i]
    ensures InBounds(t, k) && 0 <= Origin(t, k) < j && OccursAt(t.text, t.text[j..i], Origin(t, k)) && t.text[Origin(t, k) + (i - j)] == k.ch
  {
    hide Inv;
    EdgeFacts(t, j, i, k);
    assert Spell(t, k)[i - j] == k.ch;
    assert t.path[k.node] == Spell(t, k)[..i - j];
  }

  /** An edge that goes on with another byte: it has not been seen, and nothing forks. */
  lemma EdgeRequests(t: Tree, j: int, i: int, node: Node, start: int)
    requires Inv(t, j, i) && 0 <= j <= i < |t.text| && Active(t, j, i, node, start) && start < i
    requires t.text[t.edges[Key(node, t.text[start])].start + (i - start)] != t.text[i]
    ensures Requests(t.text, j, i) == [ForNode, ForEdge, ForEdge, ForNode] + Requests(t.text, j + 1, i)
  {
    hide Inv;
    if Seen(t.text, j, i + 1) {
      var o :| o < j && OccursAt(t.text, t.text[j..i + 1], o);
      SeenShorter(t.text, j, i, o);
      OnlyByte(t, j, i, node, start, o);
    }
    if Forks(t.text, j, i) {
      var o, u :| o < j && u < j && OccursAt(t.text, t.text[j..i], o) && OccursAt(t.text, t.text[j..i], u) && t.text[o + (i - j)] != t.text[u + (i - j)];
      OnlyByte(t, j, i, node, start, o);
      OnlyByte(t, j, i, node, start, u);
    }
  }

  /** Inside an edge only its next byte has followed. */
  lemma OnlyByte(t: Tree, j: int, i: int, node: Node, start: int, o: int)
    requires Inv(t, j, i) && 0 <= j <= i < |t.text| && Active(t, j, i, node, start) && start < i
    requires o < j && OccursAt(t.text, t.text[j..i], o)
    ensures t.text[o + (i - j)] == t.text[t.edges[Key(node, t.text[start])].start + (i - start)]
  {
    hide Inv;
    SeenContinues(t, j, i, node, o);
    var k, v := Key(node, t.text[start]), t.text[o..o + (i - j) + 1];
    assert v[start - j] == t.text[j..i][start - j];
    assert v[i - j] == Spell(t, k)[i - j];
  }

  lemma StopRequests(text: Bytes, j: int, i: int)
    requires 0 <= j <= i + 1 <= |text| && Seen(text, j, i + 1)
    ensures Requests(text, j, i) == Requests(text, j, i + 1)
  {
  }

  /** A text that is not empty and memory for the buckets alone. */
  lemma NoEdge(text: Bytes)
    requires text != []
    ensures Answer(Requests(text, 0, 0), 0) == Undefined
  {
    assert !Seen(text, 0, 1);
  }

  lemma NoRequests(text: Bytes, j: int)
    requires 0 <= j <= |text|
    ensures Requests(text, j, |text|) == []
  {
  }

  lemma SeenNow(t: Tree, j: int, i: int)
    requires Inv(t, j, i)
    ensures Seen(t.text, j, i)
  {
  }

  // ----- inner nodes fork -----

  /** Inner nodes other than the root are left by two edges. */
  ghost predicate Forked(t: Tree) {
    forall m :: m in t.path && m != ROOT ==> exists a, b :: a in t.edges && b in t.edges && a.node == m == b.node && a.ch != b.ch
  }

  lemma ForkedFacts(t: Tree, m: Node) returns (a: Key, b: Key)
    requires Forked(t) && m in t.path && m != ROOT
    ensures a in t.edges && b in t.edges && a.node == m == b.node && a.ch != b.ch
  {
    a, b :| a in t.edges && b in t.edges && a.node == m == b.node && a.ch != b.ch;
  }

  lemma ForkedLeaf(t: Tree, n: Node, i: int, leaf: Node)
    requires Forked(t) && 0 <= i < |t.text|
    ensures Forked(AddLeaf(t, n, i, leaf))
  {
    hide Forked;
    var r := AddLeaf(t, n, i, leaf);
    forall m | m in r.path && m != ROOT
      ensures exists a, b :: a in r.edges && b in r.edges && a.node == m == b.node && a.ch != b.ch
    {
      var a, b := ForkedFacts(t, m);
    }
    ForkedIntro(r);
  }

  lemma ForkedIntro(t: Tree)
    requires forall m :: m in t.path && m != ROOT ==> exists a, b :: a in t.edges && b in t.edges && a.node == m == b.node && a.ch != b.ch
    ensures Forked(t)
  {
  }

  lemma ForkedCut(t: Tree, k: Key, off: int, mid: Node, i: int, leaf: Node)
    requires Forked(t) && InBounds(t, k) && 0 < off <= t.edges[k].end - t.edges[k].start && 0 <= i < |t.text|
    requires t.text[t.edges[k].start + off] != t.text[i] && mid !in t.path && mid != k.node
    ensures Forked(AddLeaf(CutEdge(t, k, off, mid), mid, i, leaf))
  {
    hide Forked;
    var r := AddLeaf(CutEdge(t, k, off, mid), mid, i, leaf);
    forall m | m in r.path && m != ROOT
      ensures exists a, b :: a in r.edges && b in r.edges && a.node == m == b.node && a.ch != b.ch
    {
      if m == mid {
        var a, b := Key(mid, t.text[t.edges[k].start + off]), Key(mid, t.text[i]);
        assert a in r.edges && b in r.edges;
      } else {
        var a, b := ForkedFacts(t, m);
        assert a in r.edges && b in r.edges;
      }
    }
    ForkedIntro(r);
  }

  // ----- the tree as the C code keeps it -----

  /** struct sfxtree. */
  class SfxTree {
    var text: Bytes
    var edges: map<Key, Edge>
    var sptr: map<Node, Node>
    /** The address the memory manager hands out next, and how many more requests it can serve. */
    var next: Node
    var mem: nat
    ghost var path: map<Node, Bytes>
    ghost var leaves: int

    ghost function Shape(): Tree
      reads this
    {
      Tree(text, edges, path)
    }

    ghost predicate Addresses()
      reads this
    {
      && 0 < next
      && (forall k :: k in edges ==> k.node < next && edges[k].node < next)
      && (forall m :: m in path ==> 0 <= m < next)
    }

    /** newnode: NULL when there is no memory left. */
    method NewNode() returns (n: Node)
      requires 0 < next
      modifies `next, `mem, `sptr
      ensures if old(mem) == 0 then n == NULL && mem == 0 && sptr == old(sptr) && next == old(next)
              else n == old(next) && next == n + 1 && mem == old(mem) - 1 && sptr == old(sptr)[n := NULL]
    {
      if mem == 0 {
        return NULL;
      }
      n := next;
      next, mem := next + 1, mem - 1;
      sptr := sptr[n := NULL];
    }

    /**
     * getedge with `*create != 0`: `created` tells a new edge from one that was there. It means to report a refused request,
     * but newedge does not get that far.
     */
    method GetEdge(k: Key) returns (st: Status, created: bool)
      modifies `edges, `mem
      ensures created ==> st == Done
      ensures if k in old(edges) then st == Done && !created && edges == old(edges) && mem == old(mem)
              else if old(mem) == 0 then st == Undefined && edges == old(edges) && mem == 0
              else created && edges == old(edges)[k := Edge(NULL, 0, 0)] && mem == old(mem) - 1
    {
      if k in edges {
        return Done, false;
      }
      if mem == 0 {
        return Undefined, false;
      }
      mem := mem - 1;
      edges := edges[k := Edge(NULL, 0, 0)];
      return Done, true;
    }

    /** The first half of split: cut edge `k` at `off`. */
    method Cut(k: Key, off: int) returns (st: Status, newint: Node)
      requires 0 < next && InBounds(Shape(), k) && 0 < off <= edges[k].end - edges[k].start
      requires forall c :: c in edges ==> c.node != next
      modifies this
      ensures text == old(text) && leaves == old(leaves)
      ensures st == Answer([ForNode, ForEdge], old(mem))
      ensures st == Done ==>
        && newint == old(next) && next == newint + 1 && mem == old(mem) - 2
        && Shape() == CutEdge(old(Shape()), k, off, newint) && sptr == old(sptr)[newint := k.node]
    {
      var e := edges[k];
      ghost var cut := CutEdge(Shape(), k, off, next);
      newint := NewNode();
      if newint == NULL {
        return Refused, newint;
      }
      var k1 := Key(newint, text[e.start + off]);
      var created;
      st, created := GetEdge(k1);
      if st != Done {
        return;
      }
      sptr := sptr[newint := k.node];
      assert created;
      edges := edges[k1 := Edge(e.node, e.start + off, e.end)];
      edges := edges[k := Edge(newint, e.start, e.start + off - 1)];
      path := cut.path;
      assert edges == cut.edges;
    }

    /** Its second half: a leaf for `index` below the new node. */
    method Leaf(n: Node, index: int) returns (st: Status)
      requires 0 < next && 0 <= index < |text| && Key(n, text[index]) !in edges
      modifies this
      ensures text == old(text) && leaves == old(leaves)
      ensures st == Answer([ForEdge, ForNode], old(mem))
      ensures st == Done ==>
        && next == old(next) + 1 && mem == old(mem) - 2
        && Shape() == AddLeaf(old(Shape()), n, index, old(next)) && sptr == old(sptr)[old(next) := NULL]
    {
      var k2 := Key(n, text[index]);
      var created;
      st, created := GetEdge(k2);
      if st != Done {
        return;
      }
      assert created;
      var newleaf := NewNode();
      if newleaf == NULL {
        return Refused;
      }
      edges := edges[k2 := Edge(newleaf, index, |text| - 1)];
      assert edges == old(edges)[k2 := Edge(newleaf, index, |text| - 1)];
    }

    /** split: cut edge `k` at `off` and hang a leaf for `index` below the new node. */
    method Split(k: Key, off: int, index: int) returns (st: Status, newint: Node)
      requires 0 < next && next !in path && InBounds(Shape(), k) && 0 < off <= edges[k].end - edges[k].start
      requires forall c :: c in edges ==> c.node != next
      requires 0 <= index < |text| && text[edges[k].start + off] != text[index]
      modifies this
      ensures text == old(text) && leaves == old(leaves)
      ensures st == Answer([ForNode, ForEdge, ForEdge, ForNode], old(mem))
      ensures st == Done ==>
        && newint == old(next) && next == newint + 2 && mem == old(mem) - 4
        && Shape() == AddLeaf(CutEdge(old(Shape()), k, off, newint), newint, index, old(next) + 1)
        && sptr == old(sptr)[newint := k.node][old(next) + 1 := NULL]
    {
      AnswerBoth([ForNode, ForEdge], [ForEdge, ForNode], mem);
      assert [ForNode, ForEdge] + [ForEdge, ForNode] == [ForNode, ForEdge, ForEdge, ForNode];
      st, newint := Cut(k, off);
      if st == Done {
        st := Leaf(newint, index);
      }
    }

    /** canonical: walk down whole edges until the place is at a node or inside an edge. */
    method Canonical(node0: Node, start0: int, end: int) returns (node: Node, start: int)
      requires Inv(Shape(), leaves, end + 1) && end < |text|
      requires leaves <= end + 1 ==>
        node0 in path && 0 <= leaves <= start0 == leaves + |path[node0]| <= end + 1 && path[node0] == text[leaves..start0]
      requires end + 1 < leaves ==> end < start0
      ensures leaves <= end + 1 ==> Active(Shape(), leaves, end + 1, node, start)
      ensures end + 1 < leaves ==> node == node0 && start == start0
    {
      hide Inv;
      node, start := node0, start0;
      if start <= end {
        WholeEdge(Shape(), leaves, end + 1, node, start);
        var edge := edges[Key(node, text[start])];
        var span := edge.end - edge.start + 1;
        while span <= end - start + 1
          invariant node in path && 0 <= leaves <= start == leaves + |path[node]| <= end + 1
          invariant path[node] == text[leaves..start]
          invariant 0 < span
          invariant start <= end ==> Key(node, text[start]) in edges && edge == edges[Key(node, text[start])]
          invariant start <= end ==> span == edge.end - edge.start + 1
          decreases end - start
        {
          WholeEdge(Shape(), leaves, end + 1, node, start);
          start := start + span;
          node := edge.node;
          if start <= end {
            WholeEdge(Shape(), leaves, end + 1, node, start);
            edge := edges[Key(node, text[start])];
            span := edge.end - edge.start + 1;
          }
        }
        if start <= end {
          WholeEdge(Shape(), leaves, end + 1, node, start);
        }
      }
    }

    /** The inner loop at a node: `stop`, or add the leaf of the suffix from `leaves` on. */
    method AddAtNode(i: int, node: Node) returns (st: Status, stop: bool)
      requires 0 <= i < |text| && Inv(Shape(), leaves, i) && Forked(Shape()) && Addresses()
      requires Active(Shape(), leaves, i, node, if leaves <= i then i else i + 1)
      modifies this
      ensures text == old(text) && path == old(path)
      ensures st == Done && stop ==> unchanged(this) && Inv(Shape(), leaves, i + 1)
      ensures st == Done && !stop ==>
        && Extended(old(Shape()), Shape(), old(leaves), i, node) && Forked(Shape()) && leaves == old(leaves) + 1 && Addresses()
        && sptr == old(sptr)[old(next) := NULL]
        && old(mem) - 2 == mem && Requests(text, old(leaves), i) == [ForEdge, ForNode] + Requests(text, leaves, i)
      ensures st != Done ==> st == Answer(Requests(text, old(leaves), i), old(mem))
    {
      hide Inv, Branches, Extended, Forked, Requests;
      ghost var t := Shape();
      var k := Key(node, text[i]);
      if k !in edges {
        NodeRequests(t, leaves, i, node);
        AnswerBoth([ForEdge, ForNode], Requests(text, leaves + 1, i), mem);
      }
      var created;
      st, created := GetEdge(k);
      if st != Done {
        return st, false;
      }
      if !created {
        StopAtNode(t, leaves, i, node, if leaves <= i then i else i + 1);
        return Done, true;
      }
      var leaf := NewNode();
      if leaf == NULL {
        return Refused, false;
      }
      edges := edges[k := Edge(leaf, i, |text| - 1)];
      assert Shape() == AddLeaf(t, node, i, leaf);
      ExtendAtNode(t, leaves, i, node, leaf);
      ForkedLeaf(t, node, i, leaf);
      leaves := leaves + 1;
      stop := false;
    }

    /** The inner loop inside an edge. */
    method AddOnEdge(i: int, node: Node, start: int) returns (st: Status, stop: bool, cur: Node)
      requires 0 <= i < |text| && Inv(Shape(), leaves, i) && Forked(Shape()) && Addresses()
      requires leaves <= i && Active(Shape(), leaves, i, node, start) && start < i
      modifies this
      ensures text == old(text)
      ensures st == Done && stop ==> unchanged(this) && Inv(Shape(), leaves, i + 1)
      ensures st == Done && stop ==> text[edges[Key(node, text[start])].start + (i - start)] == text[i]
      ensures st == Done && !stop ==>
        && Extended(old(Shape()), Shape(), old(leaves), i, cur) && Forked(Shape()) && leaves == old(leaves) + 1 && Addresses()
        && cur == old(next) && path == old(path)[cur := path[cur]]
        && sptr == old(sptr)[cur := node][old(next) + 1 := NULL]
        && old(mem) - 4 == mem && Requests(text, old(leaves), i) == [ForNode, ForEdge, ForEdge, ForNode] + Requests(text, leaves, i)
      ensures st != Done ==> st == Answer(Requests(text, old(leaves), i), old(mem))
    {
      hide Inv, Branches, Extended, Forked, Requests;
      ghost var t := Shape();
      var k := Key(node, text[start]);
      var edge := edges[k];
      var span := i - 1 - start + 1;
      assert edge.end - edge.start + 1 > span;
      if text[edge.start + span] == text[i] {
        StopOnEdge(t, leaves, i, node, start);
        return Done, true, node;
      }
      EdgeRequests(t, leaves, i, node, start);
      AnswerBoth([ForNode, ForEdge, ForEdge, ForNode], Requests(text, leaves + 1, i), mem);
      st, cur := Split(k, span, i);
      if st != Done {
        return st, false, cur;
      }
      ExtendOnEdge(t, leaves, i, node, start, cur, cur + 1);
      ForkedCut(t, k, span, cur, i, cur + 1);
      leaves := leaves + 1;
      stop := false;
    }

    /** The state between two bytes: `i` bytes are read, and `node`, `start` are canonical for the rest. */
    ghost predicate Ready(i: int, node: Node, start: int)
      reads this
    {
      && Inv(Shape(), leaves, i) && Forked(Shape()) && 0 <= leaves <= i && Active(Shape(), leaves, i, node, start)
      && Links(Shape(), sptr, {}) && Addresses()
    }

    /** The state inside a round: `last`, once there is one, spells the suffix just extended and may lack its link. */
    ghost predicate Extending(i: int, node: Node, start: int, last: Node, pending: set<Node>)
      reads this
    {
      && Inv(Shape(), leaves, i) && Forked(Shape()) && 0 <= leaves <= i + 1 && Active(Shape(), leaves, i, node, start)
      && Links(Shape(), sptr, pending) && Addresses()
      && pending <= {last} - {NULL, ROOT}
      && (leaves == i + 1 ==> last == ROOT)
      && (last != NULL ==> last in path && 0 < leaves && path[last] == text[leaves - 1..i])
      && (last != NULL && last != ROOT ==> Branches(Shape(), i, last))
    }

    /** The rest of the inner loop: link the node extended before to `cur`, and move on to the next suffix. */
    method NextSuffix(i: int, last: Node, cur: Node, node0: Node, start0: int,
        ghost t: Tree, ghost j: int, ghost pending: set<Node>, ghost added: set<Node>)
      returns (node: Node, start: int)
      requires Extended(t, Shape(), j, i, cur) && Forked(Shape()) && leaves == j + 1 && Addresses()
      requires Active(t, j, i, node0, start0) && t.path.Keys <= path.Keys && node0 !in added
      requires forall m :: m in t.path ==> m in path && path[m] == t.path[m]
      requires Links(Shape(), sptr, pending + added) && added <= {cur} - {NULL, ROOT} && (cur == ROOT ==> node0 == ROOT)
      requires pending <= {last} - {NULL, ROOT}
      requires last != NULL ==> last in t.path && 0 < j && t.path[last] == text[j - 1..i]
      modifies `sptr
      ensures Extending(i, node, start, cur, added)
    {
      hide Inv, Branches, Links, Active;
      ActiveFacts(t, j, i, node0, start0);
      RootFacts(Shape(), leaves, i);
      if last != NULL && last != ROOT {
        TailSlice(text, j - 1, i);
        assert path[cur] != path[last];
        LinkSet(Shape(), sptr, pending + added, last, cur);
        sptr := sptr[last := cur];
        assert pending + added - {last} == added;
      } else {
        assert pending + added == added;
      }
      node, start := node0, start0;
      if node == ROOT {
        start := start + 1;
      } else {
        LinkFacts(Shape(), sptr, added, node);
        TailSlice(text, j, start);
        node := sptr[node];
      }
      node, start := Canonical(node, start, i - 1);
      if j == i {
        RootDone(Shape(), leaves, i);
      }
    }

    /** A round of the inner loop of sfx_build: `stop`, or the suffix from `leaves` on gets its leaf. */
    method Round(i: int, node0: Node, start0: int, last: Node, ghost pending: set<Node>)
      returns (st: Status, stop: bool, node: Node, start: int, cur: Node, ghost added: set<Node>)
      requires 0 <= i < |text| && Extending(i, node0, start0, last, pending)
      modifies this
      ensures text == old(text)
      ensures st == Done && stop ==> unchanged(this) && Inv(Shape(), leaves, i + 1) && cur == node == node0 && start == start0
      ensures st == Done && stop ==> start0 < i ==> last == NULL || last == ROOT
      ensures st == Done && !stop ==>
        && Extending(i, node, start, cur, added) && leaves == old(leaves) + 1
        && Answer(Requests(text, old(leaves), i), old(mem)) == Answer(Requests(text, leaves, i), mem)
      ensures st != Done ==> st == Answer(Requests(text, old(leaves), i), old(mem))
    {
      hide Inv, Branches, Links, Active, Extended, Forked, Requests;
      node, start := node0, start0;
      ghost var t, j, links := Shape(), leaves, sptr;
      added := {};
      ActiveFacts(t, j, i, node, start);
      cur := node;
      if start > i - 1 {
        st, stop := AddAtNode(i, node);
      } else {
        st, stop, cur := AddOnEdge(i, node, start);
        added := {cur};
        if st == Done && stop {
          cur := node;
          if last != NULL && last != ROOT {
            LinkTargetIsNode(t, j, i, last, node, start);
          }
        }
      }
      if st == Done && !stop {
        LinksGrow(t, links, pending, Shape(), sptr, added);
        node, start := NextSuffix(i, last, cur, node, start, t, j, pending, added);
        AnswerBoth(if start0 > i - 1 then [ForEdge, ForNode] else [ForNode, ForEdge, ForEdge, ForNode], Requests(text, leaves, i), old(mem));
      }
    }

    /** What follows the inner loop: the last link. */
    method LastLink(i: int, node: Node, start: int, last: Node, ghost pending: set<Node>)
      requires 0 <= i < |text| && Extending(i, node, start, last, pending) && Inv(Shape(), leaves, i + 1)
      requires start < i ==> last == NULL || last == ROOT
      modifies `sptr
      ensures Links(Shape(), sptr, {})
    {
      hide Inv, Branches, Links, Active;
      ActiveFacts(Shape(), leaves, i, node, start);
      RootFacts(Shape(), leaves, i + 1);
      if last != NULL && last != ROOT {
        TailSlice(text, leaves - 1, i);
        LinkSet(Shape(), sptr, pending, last, node);
        sptr := sptr[last := node];
        assert pending - {last} == {};
      } else {
        assert pending == {};
      }
    }

    /** The inner loop of sfx_build for byte `i`, with the link and the walk that follow it. */
    method Extend(i: int, node0: Node, start0: int) returns (st: Status, node: Node, start: int)
      requires 0 <= i < |text| && Ready(i, node0, start0)
      modifies this
      ensures text == old(text)
      ensures st == Done ==>
        Ready(i + 1, node, start) && Answer(Requests(text, old(leaves), i), old(mem)) == Answer(Requests(text, leaves, i + 1), mem)
      ensures st != Done ==> st == Answer(Requests(text, old(leaves), i), old(mem))
    {
      hide Inv, Branches, Links, Active, Forked, Requests;
      node, start := node0, start0;
      var last, cur, stop := NULL, node, false;
      ghost var pending: set<Node> := {};
      st := Done;
      while !stop
        invariant text == old(text) && Extending(i, node, start, last, pending)
        invariant Answer(Requests(text, old(leaves), i), old(mem)) == Answer(Requests(text, leaves, i), mem)
        invariant stop ==> Inv(Shape(), leaves, i + 1) && cur == node && (start < i ==> last == NULL || last == ROOT)
        decreases !stop, i + 1 - leaves
      {
        ghost var added;
        st, stop, node, start, cur, added := Round(i, node, start, last, pending);
        if st != Done {
          return;
        }
        if !stop {
          last, pending := cur, added;
        }
      }
      ActiveFacts(Shape(), leaves, i, node, start);
      SeenNow(Shape(), leaves, i + 1);
      StopRequests(text, leaves, i);
      LastLink(i, cur, start, last, pending);
      node, start := Canonical(node, start, i);
      st := Done;
    }

    /** What sfx_init leaves when it succeeds: the whole text is read and every inner node is linked. */
    ghost predicate Valid()
      reads this
    {
      Inv(Shape(), leaves, |text|) && Forked(Shape()) && Links(Shape(), sptr, {}) && Addresses()
    }

    /** sfx_build. */
    method Build() returns (st: Status)
      requires edges == map[] && path == map[ROOT := []] && leaves == 0 && 0 < next
      modifies this
      ensures text == old(text)
      ensures st == Answer(Requests(text, 0, 0), old(mem))
      ensures st == Done ==> Valid()
    {
      hide Inv, Links, Requests, Forked;
      var node, start := ROOT, 0;
      EmptyTree(Shape(), sptr);
      var i := 0;
      while i < |text|
        invariant text == old(text) && 0 <= i <= |text| && Ready(i, node, start)
        invariant Answer(Requests(text, 0, 0), old(mem)) == Answer(Requests(text, leaves, i), mem)
      {
        st, node, start := Extend(i, node, start);
        if st != Done {
          return;
        }
        i := i + 1;
      }
      NoRequests(text, leaves);
      st := Done;
    }

    /**
     * sfx_init, which asks for the buckets of the hash table first; on failure the tree is cleared. How it ends is decided by
     * the text and the number of requests that are served: if the first one refused is for an edge, it has no defined end.
     */
    method Init(str: Bytes, served: nat) returns (st: Status)
      requires |str| <= SFX_MAXLEN
      modifies this
      ensures text == str
      ensures st == if served == 0 then Refused else Answer(Requests(str, 0, 0), served - 1)
      ensures st == Done ==> Valid() && forall w :: SpelledBy(Shape(), |str|, w) <==> Occurs(str, w)
      ensures st == Refused ==> edges == map[]
      ensures 4 * |str| < served ==> st == Done
    {
      hide Requests;
      text, edges, sptr, next, mem := str, map[], map[ROOT := NULL], ROOT + 1, served;
      path, leaves := map[ROOT := []], 0;
      if mem == 0 {
        return Refused;
      }
      mem := mem - 1;
      st := Build();
      if st != Done {
        if st == Refused {
          Clear();
        }
        return;
      }
      forall w
        ensures SpelledBy(Shape(), |str|, w) <==> Occurs(str, w)
      {
        assert str[..|str|] == str;
        SpelledExactly(Shape(), leaves, |str|, w);
      }
    }

    /** sfx_clear. */
    method Clear()
      modifies `edges
      ensures edges == map[]
    {
      edges := map[];
    }

    /** Where the walk of sfx_match is: the part of the pattern before `cp` is spelled, and edge `last` was the last one taken. */
    ghost predicate Walked(pat: Bytes, cur: Node, cp: int, last: Key, len: int)
      reads this
    {
      && 0 <= cp <= |pat|
      && (cp == |pat| || (if cur in path then path[cur] == pat[..cp] else !Spelled(Shape(), pat)))
      && (if cp == 0 then last.node == NULL else
            Covers(Shape(), last, pat[..cp]) && len == cp - |path[last.node]| && last.node != NULL)
    }

    /** A round of the loop of sfx_match. */
    method Down(pat: Bytes, cur0: Node, cp0: int, last0: Key, len0: int) returns (same: bool, cur: Node, cp: int, last: Key, len: int)
      requires Valid() && Walked(pat, cur0, cp0, last0, len0) && cp0 < |pat| && Key(cur0, pat[cp0]) in edges
      ensures same ==> Walked(pat, cur, cp, last, len) && cp0 < cp
      ensures !same ==> !Spelled(Shape(), pat)
    {
      hide Inv, Links, Spelled, Forked;
      cur, cp := cur0, cp0;
      last := Key(cur, pat[cp]);
      ghost var t, n := Shape(), |text|;
      RootFacts(t, leaves, n);
      EdgeFacts(t, leaves, n, last);
      MatchStep(t, leaves, n, cur, pat, cp);
      var edge := edges[last];
      len := edge.end - edge.start + 1;
      if |pat| - cp < len {
        len := |pat| - cp;
      }
      same := text[edge.start..edge.start + len] == pat[cp..cp + len];
      cp := cp + len;
      cur := edge.node;
    }

    /** sfx_match: any pattern, the empty one too, in one walk down the tree. */
    method Match(pat: Bytes) returns (found: bool, loc: int)
      requires Valid() && |pat| <= SFX_MAXLEN
      ensures found <==> Occurs(text, pat)
      ensures found ==> OccursAt(text, pat, loc)
    {
      hide Inv, Links, Spelled, Occurs, Forked;
      ghost var t, n := Shape(), |text|;
      SpelledMeansOccurs(t, leaves, pat);
      RootFacts(t, leaves, n);
      var cur, cp, len, same := ROOT, 0, 0, true;
      var last := Key(NULL, 0);
      loc := 0;
      while cp < |pat| && Key(cur, pat[cp]) in edges
        invariant Walked(pat, cur, cp, last, len)
      {
        same, cur, cp, last, len := Down(pat, cur, cp, last, len);
        if !same {
          return false, loc;
        }
      }
      if cp != |pat| {
        if cur in path {
          MatchStep(t, leaves, n, cur, pat, cp);
        }
        return false, loc;
      }
      if last.node == NULL {
        assert OccursAt(text, pat, 0);
        Found(text, pat, 0);
        return true, 0;
      }
      assert pat[..cp] == pat;
      SpelledOccurs(t, last, pat);
      loc := edges[last].start + len - |pat|;
      Found(text, pat, loc);
      found := true;
    }
  }

  lemma Found(text: Bytes, pat: Bytes, k: int)
    requires OccursAt(text, pat, k)
    ensures Occurs(text, pat)
  {
  }
}
