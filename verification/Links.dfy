/** Circular doubly linked lists, as include/cat/list.h lays them out: a list is a ring through its head. */
module Links {

  /**
   * struct list: a head, or a node embedded in what the user lists. Of that the sort looks at `key`; `ttl` is the field
   * of struct dlist.
   */
  class Link {
    const key: int
    var next: Link
    var prev: Link
    var ttl: int

    /** l_init */
    constructor (key: int, ttl: int)
      ensures Ring(this, [], {this}) && this.key == key && this.ttl == ttl
    {
      this.key, this.ttl := key, ttl;
      next, prev := this, this;
    }
  }

  /** In a ring the first one comes behind the last one. */
  function After(c: seq<Link>, i: nat): Link
    requires i < |c|
  {
    if i + 1 == |c| then c[0] else c[i + 1]
  }

  function Before(c: seq<Link>, i: nat): Link
    requires i < |c|
  {
    if i == 0 then c[|c| - 1] else c[i - 1]
  }

  ghost predicate Linked(c: seq<Link>, i: nat)
    requires i < |c|
    reads {c[i]}`next, {c[i]}`prev
  {
    c[i].next == After(c, i) && c[i].prev == Before(c, i)
  }

  predicate Distinct(c: seq<Link>) {
    forall i, j :: 0 <= i < j < |c| ==> c[i] != c[j]
  }

  lemma SamePlace(c: seq<Link>, i: nat, j: nat)
    requires Distinct(c) && i < |c| && j < |c|
    ensures c[i] == c[j] <==> i == j
  {
  }

  lemma WithMore(c: seq<Link>, e: Link, k: nat)
    requires Distinct(c) && k < |c| && e !in c
    ensures Distinct(c[..k + 1] + [e] + c[k + 1..])
  {
  }

  lemma WithLess(c: seq<Link>, k: nat)
    requires Distinct(c) && k < |c|
    ensures Distinct(c[..k] + c[k + 1..]) && c[k] !in c[..k] + c[k + 1..]
  {
  }

  function Nodes(h: Link, s: seq<Link>): set<Link> {
    {h} + set x | x in s
  }

  lemma InNodes(h: Link, s: seq<Link>, k: nat)
    requires k <= |s|
    ensures ([h] + s)[k] in Nodes(h, s)
  {
  }

  lemma NodesMore(h: Link, s: seq<Link>, e: Link, k: nat)
    requires k <= |s|
    ensures Nodes(h, s[..k] + [e] + s[k..]) == Nodes(h, s) + {e} && (e in [h] + s <==> e in Nodes(h, s))
  {
  }

  /** A ring is described by its elements with its head first; `r` is what it consists of. */
  ghost predicate Ring(h: Link, s: seq<Link>, r: set<Link>)
    reads r`next, r`prev
  {
    var c := [h] + s;
    r == Nodes(h, s) && Distinct(c) && forall i {:trigger Linked(c, i)} :: 0 <= i < |c| ==> Linked(c, i)
  }

  lemma Ends(h: Link, s: seq<Link>, r: set<Link>)
    requires Ring(h, s, r)
    ensures h in r && h !in s && h.next == (if s == [] then h else s[0]) && h.prev == ([h] + s)[|s|] && h.prev.next == h
    ensures s != [] ==> s[0] !in s[1..] && s[0].prev == h && s[0].next == (if |s| == 1 then h else s[1])
    ensures h.next in r && h.prev in r && forall e :: e in s ==> e in r
  {
    var c := [h] + s;
    assert Linked(c, 0) && Linked(c, |s|);
    forall i | 0 <= i < |s|
      ensures s[i] != h
    {
      assert s[i] == c[i + 1];
    }
    if s != [] {
      assert Linked(c, 1);
      forall i | 1 <= i < |s|
        ensures s[i] != s[0]
      {
        assert s[i] == c[i + 1] && s[0] == c[1];
      }
    }
  }

  lemma Neighbours(h: Link, s: seq<Link>, r: set<Link>, k: nat)
    requires Ring(h, s, r) && k < |s|
    ensures s[k] in r && s[k] != h && s[k].next == (if k + 1 == |s| then h else s[k + 1]) && s[k].prev == ([h] + s)[k]
    ensures forall i :: 0 <= i < |s| && i != k ==> s[i] != s[k]
  {
    var c := [h] + s;
    assert Linked(c, k + 1) && c[k + 1] == s[k] && c[0] == h;
    SamePlace(c, 0, k + 1);
    forall i | 0 <= i < |s| && i != k
      ensures s[i] != s[k]
    {
      SamePlace(c, i + 1, k + 1);
      assert s[i] == c[i + 1];
    }
  }

  /** l_isempty */
  method IsEmpty(h: Link, ghost s: seq<Link>, ghost r: set<Link>) returns (e: bool)
    requires Ring(h, s, r)
    ensures e <==> s == []
  {
    Ends(h, s, r);
    e := h.next == h;
  }

  /** The neighbours in a ring after `e` has come behind place `k`. */
  lemma Around(c: seq<Link>, e: Link, k: nat, i: nat)
    requires k < |c| && i <= |c|
    ensures var d := c[..k + 1] + [e] + c[k + 1..];
            var j := if i <= k then i else i - 1;
            && d[i] == (if i == k + 1 then e else c[j])
            && After(d, i) == (if i == k then e else After(c, j))
            && Before(d, i) == (if i == k + 1 then c[k] else if i == (if k + 1 == |c| then 0 else k + 2) then e else Before(c, j))
  {
  }

  /** l_ins */
  method Ins(prev: Link, e: Link, ghost h: Link, ghost s: seq<Link>, ghost r: set<Link>, ghost k: nat)
    requires Ring(h, s, r) && k <= |s| && prev == ([h] + s)[k] && e !in r
    modifies r`next, r`prev, e`next, e`prev
    ensures Ring(h, s[..k] + [e] + s[k..], r + {e})
  {
    hide Distinct, Before, Nodes;
    ghost var c := [h] + s;
    ghost var d := [h] + (s[..k] + [e] + s[k..]);
    assert d == c[..k + 1] + [e] + c[k + 1..];
    NodesMore(h, s, e, k);
    WithMore(c, e, k);
    ghost var a := if k + 1 == |c| then 0 else k + 1;
    assert Linked(c, k) && Linked(c, a) && After(c, k) == c[a];
    InNodes(h, s, k);
    InNodes(h, s, a);
    Relink(prev, e);
    forall i | 0 <= i < |d|
      ensures Linked(d, i)
    {
      var j := if i <= k then i else i - 1;
      Around(c, e, k, i);
      assert old(Linked(c, j));
      SamePlace(c, k, j);
      SamePlace(c, a, j);
    }
  }

  /** The four writes of l_ins. */
  method Relink(prev: Link, e: Link)
    requires e != prev && e != prev.next
    modifies prev`next, prev.next`prev, e`next, e`prev
    ensures e.next == old(prev.next) && e.prev == prev && prev.next == e && old(prev.next).prev == e
    ensures prev != old(prev.next) ==> old(prev.next).next == old(prev.next.next) && prev.prev == old(prev.prev)
  {
    var next := prev.next;
    e.next := next;
    e.prev := prev;
    prev.next := e;
    next.prev := e;
  }

  /** The neighbours in a ring after what was at place `k` has been taken out. */
  lemma AroundLess(c: seq<Link>, k: nat, i: nat)
    requires 0 < k < |c| && i < |c| - 1
    ensures var d := c[..k] + c[k + 1..];
            var j := if i < k then i else i + 1;
            && d[i] == c[j]
            && After(d, i) == (if i == k - 1 then After(c, k) else After(c, j))
            && Before(d, i) == (if j == (if k + 1 == |c| then 0 else k + 1) then c[k - 1] else Before(c, j))
  {
  }

  lemma Previous(c: seq<Link>, k: nat)
    requires 0 < k < |c|
    ensures Before(c, k) == c[k - 1]
  {
  }

  /** l_rem */
  method Rem(e: Link, ghost h: Link, ghost s: seq<Link>, ghost r: set<Link>, ghost k: nat)
    requires Ring(h, s, r) && k < |s| && e == s[k]
    modifies r`next, r`prev
    ensures Ring(h, s[..k] + s[k + 1..], r - {e}) && Ring(e, [], {e}) && e in r
  {
    hide Distinct, Nodes, Before;
    ghost var c := [h] + s;
    WithLess(c, k + 1);
    ghost var d := [h] + (s[..k] + s[k + 1..]);
    assert d == c[..k + 1] + c[k + 2..];
    ghost var a := if k + 2 == |c| then 0 else k + 2;
    Without(h, s, k);
    assert Linked(c, k) && Linked(c, k + 1) && Linked(c, a);
    Previous(c, k + 1);
    InNodes(h, s, k);
    InNodes(h, s, k + 1);
    InNodes(h, s, a);
    SamePlace(c, k, k + 1);
    SamePlace(c, a, k + 1);
    var next, prev := e.next, e.prev;
    prev.next := next;
    next.prev := prev;
    e.next := e;
    e.prev := e;
    Alone(e);
    forall i | 0 <= i < |d|
      ensures Linked(d, i)
    {
      var j := if i <= k then i else i + 1;
      AroundLess(c, k + 1, i);
      assert old(Linked(c, j));
      SamePlace(c, k, j);
      SamePlace(c, k + 1, j);
      SamePlace(c, a, j);
    }
  }

  lemma Without(h: Link, s: seq<Link>, k: nat)
    requires Distinct([h] + s) && k < |s|
    ensures Nodes(h, s[..k] + s[k + 1..]) == Nodes(h, s) - {s[k]}
  {
    var c := [h] + s;
    WithLess(c, k + 1);
    assert c[..k + 1] + c[k + 2..] == [h] + (s[..k] + s[k + 1..]);
    assert forall e :: e in s ==> e == s[k] || e in s[..k] + s[k + 1..];
  }

  lemma Alone(e: Link)
    requires e.next == e.prev == e
    ensures Ring(e, [], {e})
  {
  }

  /** l_move: what was listed by `src` is listed by `dst`. Of an empty list it does not make an empty list. */
  method Move(dst: Link, src: Link, ghost s: seq<Link>, ghost r: set<Link>)
    requires Ring(src, s, r) && dst !in r
    modifies dst`next, dst`prev, r`next, r`prev
    ensures Ring(src, [], {src}) && (Ring(dst, s, r - {src} + {dst}) <==> s != [])
    ensures s == [] ==> dst.next == dst && dst.prev == src
  {
    ghost var c, d := [src] + s, [dst] + s;
    assert Linked(c, 0) && Linked(c, |s|) && Linked(c, if s == [] then 0 else 1);
    SamePlace(c, 0, |s|);
    Ends(src, s, r);
    Headed(src, dst, s);
    assert Nodes(dst, s) == r - {src} + {dst};
    hide Distinct, Nodes;
    dst.next := src.next;
    dst.prev := src.prev;
    src.next.prev := dst;
    src.prev.next := dst;
    src.next := src;
    src.prev := src;
    Alone(src);
    if s == [] {
      assert !Linked(d, 0);
    } else {
      forall i | 0 <= i < |d|
        ensures Linked(d, i)
      {
        assert i > 0 ==> d[i] == c[i] && old(Linked(c, i));
        SamePlace(c, 0, i);
        SamePlace(c, 1, i);
        SamePlace(c, |s|, i);
      }
    }
  }

  lemma Headed(src: Link, dst: Link, s: seq<Link>)
    requires Distinct([src] + s) && dst !in s
    ensures Distinct([dst] + s)
  {
    forall i, j | 0 <= i < j < |s| + 1
      ensures ([dst] + s)[i] != ([dst] + s)[j]
    {
      assert ([src] + s)[i] != ([src] + s)[j];
    }
  }

  /** The elements of a front part of a ring, and of the rest of it. */
  lemma Halves(h: Link, g: Link, s: seq<Link>, k: nat)
    requires Distinct([h] + s) && g != h && g !in s && k <= |s|
    ensures Distinct([h] + s[k..]) && Distinct([g] + s[..k])
    ensures Nodes(h, s[k..]) == Nodes(h, s) - (set x | x in s[..k]) && Nodes(g, s[..k]) == {g} + set x | x in s[..k]
  {
    var c := [h] + s;
    assert forall i :: 0 <= i < |s| ==> s[i] == c[i + 1];
    forall i, j | 0 <= i < j < |s|
      ensures s[i] != s[j]
    {
      assert c[i + 1] != c[j + 1];
    }
    forall i | 0 <= i < |s|
      ensures s[i] != h
    {
      assert c[0] != c[i + 1];
    }
    assert forall i :: 0 <= i < |s| - k ==> s[k..][i] == s[k + i];
    assert forall x :: x in s ==> x in s[..k] || x in s[k..];
  }

  /** The neighbours in the two rings that are made of the front and the rest of one. */
  lemma AroundHalves(h: Link, g: Link, s: seq<Link>, k: nat, i: nat)
    requires 0 < k <= |s| && i <= |s|
    ensures var c, d, e := [h] + s, [h] + s[k..], [g] + s[..k];
      var j := if i == 0 then 0 else i + k;
      && (i <= |s| - k ==> d[i] == c[j] && After(d, i) == if i == 0 then After(c, k) else After(c, j))
      && (i <= |s| - k ==> Before(d, i) == if j == (if k == |s| then 0 else k + 1) then h else Before(c, j))
      && (0 < i <= k ==> e[i] == c[i])
      && (i <= k ==> After(e, i) == if i == k then g else After(c, i))
      && (i <= k ==> Before(e, i) == if i == 0 then c[k] else if i == 1 then g else Before(c, i))
  {
  }

  /** The first `k` elements of a list become a list of their own, as the end of dl_adv does it; `t` is the last of them. */
  method SplitFront(h: Link, g: Link, t: Link, ghost s: seq<Link>, ghost r: set<Link>, ghost k: nat)
    requires Ring(h, s, r) && g !in r && 0 < k <= |s| && t == s[k - 1]
    modifies r`next, r`prev, g`next, g`prev
    ensures Ring(h, s[k..], r - set x | x in s[..k]) && Ring(g, s[..k], {g} + set x | x in s[..k])
  {
    hide Distinct, Nodes, Before;
    ghost var c, d, e := [h] + s, [h] + s[k..], [g] + s[..k];
    ghost var a := if k == |s| then 0 else k + 1;
    Ends(h, s, r);
    assert Linked(c, 0) && Linked(c, 1) && Linked(c, k) && After(c, k) == c[a] && c[1] == s[0] && c[k] == t;
    SamePlace(c, 0, 1);
    SamePlace(c, 0, k);
    SamePlace(c, a, k);
    SamePlace(c, a, 1);
    Halves(h, g, s, k);
    var head := h.next;
    h.next := t.next;
    t.next.prev := h;
    head.prev := g;
    g.next := head;
    t.next := g;
    g.prev := t;
    forall i | 0 <= i < |d|
      ensures Linked(d, i)
    {
      var j := if i == 0 then 0 else i + k;
      AroundHalves(h, g, s, k, i);
      assert old(Linked(c, j));
      SamePlace(c, 0, j);
      SamePlace(c, 1, j);
      SamePlace(c, k, j);
      SamePlace(c, a, j);
    }
    forall i | 0 <= i < |e|
      ensures Linked(e, i)
    {
      AroundHalves(h, g, s, k, i);
      assert old(Linked(c, i));
      SamePlace(c, 0, i);
      SamePlace(c, 1, i);
      SamePlace(c, k, i);
      SamePlace(c, a, i);
    }
  }
}
