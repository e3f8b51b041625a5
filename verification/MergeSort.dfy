/** l_merge and l_sort of include/cat/list.h: merge sort that counts the nodes in binary. */
module MergeSort {
  import opened Links
  import opened Powers

  predicate Sorted(s: seq<Link>) {
    forall i, j :: 0 <= i < j < |s| ==> s[i].key <= s[j].key
  }

  // ----- merging -----

  /** Of equal elements those of the second list come first. */
  function Merged(a: seq<Link>, b: seq<Link>): seq<Link> {
    if a == [] then b
    else if b == [] then a
    else if a[0].key < b[0].key then [a[0]] + Merged(a[1..], b)
    else [b[0]] + Merged(a, b[1..])
  }

  lemma {:induction false} MergedSame(a: seq<Link>, b: seq<Link>)
    ensures multiset(Merged(a, b)) == multiset(a) + multiset(b) && |Merged(a, b)| == |a| + |b|
    decreases |a| + |b|
  {
    if a != [] && b != [] {
      assert a == [a[0]] + a[1..] && b == [b[0]] + b[1..];
      if a[0].key < b[0].key { MergedSame(a[1..], b); } else { MergedSame(a, b[1..]); }
    }
  }

  predicate Before(s: seq<Link>, x: Link, y: Link) {
    exists i, j :: 0 <= i < j < |s| && s[i] == x && s[j] == y
  }

  lemma BeforeAt(s: seq<Link>, i: nat, j: nat)
    requires i < j < |s|
    ensures Before(s, s[i], s[j])
  {
  }

  lemma BeforeLater(h: Link, s: seq<Link>, x: Link, y: Link)
    requires Before(s, x, y)
    ensures Before([h] + s, x, y)
  {
    var i, j :| 0 <= i < j < |s| && s[i] == x && s[j] == y;
    BeforeAt([h] + s, i + 1, j + 1);
  }

  lemma BeforeFirst(h: Link, s: seq<Link>, y: Link)
    requires y in s
    ensures Before([h] + s, h, y)
  {
    var j :| 0 <= j < |s| && s[j] == y;
    BeforeAt([h] + s, 0, j + 1);
  }

  lemma MergedHas(a: seq<Link>, b: seq<Link>, y: Link)
    ensures y in Merged(a, b) <==> y in a || y in b
  {
    MergedSame(a, b);
    assert y in Merged(a, b) <==> y in multiset(Merged(a, b));
    assert y in multiset(a) <==> y in a;
    assert y in multiset(b) <==> y in b;
  }

  /** The elements of each list stay in their order. */
  lemma {:induction false} MergedKeeps(a: seq<Link>, b: seq<Link>, i: nat, j: nat)
    ensures i < j < |a| ==> Before(Merged(a, b), a[i], a[j])
    ensures i < j < |b| ==> Before(Merged(a, b), b[i], b[j])
    decreases |a| + |b|
  {
    hide Before;
    if i < j && j < |a| { BeforeAt(a, i, j); }
    if i < j && j < |b| { BeforeAt(b, i, j); }
    if a != [] && b != [] {
      var first := a[0].key < b[0].key;
      var x, y, h := if first then a[1..] else a, if first then b else b[1..], if first then a[0] else b[0];
      var r := Merged(x, y);
      assert Merged(a, b) == [h] + r;
      if i < j && j < |a| {
        if first && i == 0 {
          MergedHas(x, y, a[j]);
          BeforeFirst(h, r, a[j]);
        } else {
          MergedKeeps(x, y, if first then i - 1 else i, if first then j - 1 else j);
          BeforeLater(h, r, a[i], a[j]);
        }
      }
      if i < j && j < |b| {
        if !first && i == 0 {
          MergedHas(x, y, b[j]);
          BeforeFirst(h, r, b[j]);
        } else {
          MergedKeeps(x, y, if first then i else i - 1, if first then j else j - 1);
          BeforeLater(h, r, b[i], b[j]);
        }
      }
    }
  }

  /** Between the lists an element goes by its key, and of equal ones that of the second list comes first. */
  lemma {:induction false} MergedTies(a: seq<Link>, b: seq<Link>, i: nat, j: nat)
    requires Sorted(a) && Sorted(b) && i < |a| && j < |b|
    ensures if b[j].key <= a[i].key then Before(Merged(a, b), b[j], a[i]) else Before(Merged(a, b), a[i], b[j])
    decreases |a| + |b|
  {
    hide Before;
    var first := a[0].key < b[0].key;
    var x, y, h := if first then a[1..] else a, if first then b else b[1..], if first then a[0] else b[0];
    var r := Merged(x, y);
    assert Merged(a, b) == [h] + r;
    if first && i == 0 {
      MergedHas(x, y, b[j]);
      BeforeFirst(h, r, b[j]);
    } else if !first && j == 0 {
      MergedHas(x, y, a[i]);
      BeforeFirst(h, r, a[i]);
    } else {
      MergedTies(x, y, if first then i - 1 else i, if first then j else j - 1);
      if b[j].key <= a[i].key { BeforeLater(h, r, b[j], a[i]); } else { BeforeLater(h, r, a[i], b[j]); }
    }
  }

  lemma MergedRest(a: seq<Link>, b: seq<Link>)
    ensures a == [] || b == [] ==> Merged(a, b) == a + b
  {
  }

  lemma MergedStep(a: seq<Link>, b: seq<Link>, z: seq<Link>)
    requires a != [] && b != []
    ensures z + Merged(a, b) ==
            if a[0].key < b[0].key then z + [a[0]] + Merged(a[1..], b) else z + [b[0]] + Merged(a, b[1..])
  {
  }

  lemma MergedOf(a: seq<Link>, b: seq<Link>, e: Link)
    ensures e in Merged(a, b) <==> e in a || e in b
  {
  }

  lemma {:induction false} MergedSorted(a: seq<Link>, b: seq<Link>)
    requires Sorted(a) && Sorted(b)
    ensures Sorted(Merged(a, b))
    decreases |a| + |b|
  {
    if a != [] && b != [] {
      var first := a[0].key < b[0].key;
      var x, y := if first then a[1..] else a, if first then b else b[1..];
      MergedSorted(x, y);
      var r := Merged(a, b);
      forall j | 0 < j < |r|
        ensures r[0].key <= r[j].key
      {
        assert r[j] == Merged(x, y)[j - 1];
        MergedOf(x, y, r[j]);
      }
    }
  }

  /** The front of a list is taken off. */
  method Front(h: Link, ghost x: seq<Link>, ghost r: set<Link>) returns (t: Link)
    requires Ring(h, x, r) && x != []
    modifies r`next, r`prev
    ensures t == x[0] && t in r && Ring(h, x[1..], r - {t})
  {
    Ends(h, x, r);
    t := h.next;
    assert x[..0] + x[0 + 1..] == x[1..];
    hide Ring;
    Rem(t, h, x, r, 0);
  }

  /** One node goes from the front of a list to the end of another. */
  method Shift(h: Link, m: Link, ghost x: seq<Link>, ghost z: seq<Link>, ghost hr: set<Link>, ghost mr: set<Link>)
    requires Ring(h, x, hr) && Ring(m, z, mr) && x != [] && hr !! mr
    modifies hr`next, hr`prev, mr`next, mr`prev
    ensures Ring(h, x[1..], hr - {x[0]}) && Ring(m, z + [x[0]], mr + {x[0]}) && x[0] in hr
  {
    Ends(m, z, mr);
    hide Ring;
    var t := Front(h, x, hr);
    assert z[..|z|] + [t] + z[|z|..] == z + [x[0]];
    Ins(m.prev, t, m, z, mr, |z|);
  }

  /** The smaller first node is shifted. */
  method Smaller(l1: Link, l2: Link, m: Link, ghost x: seq<Link>, ghost y: seq<Link>, ghost z: seq<Link>,
                 ghost r1: set<Link>, ghost r2: set<Link>, ghost mr: set<Link>)
    returns (first: bool)
    requires Ring(l1, x, r1) && Ring(l2, y, r2) && Ring(m, z, mr) && r1 !! r2 && r1 !! mr && r2 !! mr && x != [] && y != []
    modifies r1`next, r1`prev, r2`next, r2`prev, mr`next, mr`prev
    ensures first <==> x[0].key < y[0].key
    ensures first ==> x[0] in r1 && Ring(l1, x[1..], r1 - {x[0]}) && Ring(l2, y, r2) && Ring(m, z + [x[0]], mr + {x[0]})
    ensures !first ==> y[0] in r2 && Ring(l1, x, r1) && Ring(l2, y[1..], r2 - {y[0]}) && Ring(m, z + [y[0]], mr + {y[0]})
  {
    Ends(l1, x, r1);
    Ends(l2, y, r2);
    hide Ring;
    first := l1.next.key < l2.next.key;
    if first {
      Shift(l1, m, x, z, r1, mr);
    } else {
      Shift(l2, m, y, z, r2, mr);
    }
  }

  /** The second loop of l_merge. */
  method Drain(rest: Link, m: Link, ghost x: seq<Link>, ghost z: seq<Link>, ghost r: set<Link>, ghost mr: set<Link>)
    requires Ring(rest, x, r) && Ring(m, z, mr) && r !! mr
    modifies r`next, r`prev, mr`next, mr`prev
    ensures Ring(rest, [], {rest}) && Ring(m, z + x, r + mr - {rest}) && rest in r
  {
    Ends(rest, x, r);
    hide Ring;
    ghost var w, y, wr, yr := x, z, r, mr;
    var done := IsEmpty(rest, w, wr);
    while !done
      invariant Ring(rest, w, wr) && Ring(m, y, yr) && wr !! yr && wr + yr == r + mr && y + w == z + x && (done <==> w == [])
      decreases |w|
    {
      Shift(rest, m, w, y, wr, yr);
      wr, yr := wr - {w[0]}, yr + {w[0]};
      w, y := w[1..], y + [w[0]];
      done := IsEmpty(rest, w, wr);
    }
    Emptied(rest, wr);
    assert y == z + x;
    assert yr == r + mr - {rest};
  }

  lemma Emptied(h: Link, r: set<Link>)
    requires Ring(h, [], r)
    ensures r == {h}
  {
  }

  /** What is left of the two lists and what has been merged: three rings apart from each other. */
  ghost predicate Three(l1: Link, l2: Link, m: Link, x: seq<Link>, y: seq<Link>, z: seq<Link>, r1: set<Link>, r2: set<Link>, mr: set<Link>)
    reads r1`next, r1`prev, r2`next, r2`prev, mr`next, mr`prev
  {
    Ring(l1, x, r1) && Ring(l2, y, r2) && Ring(m, z, mr) && r1 !! r2 && r1 !! mr && r2 !! mr
  }

  lemma Moved(a: set<Link>, b: set<Link>, m: set<Link>, e: Link)
    requires a !! b && a !! m && b !! m && e in a
    ensures a - {e} !! b && a - {e} !! m + {e} && b !! m + {e} && a - {e} + b + (m + {e}) == a + b + m == b + a + m
    ensures b + (a - {e}) + (m + {e}) == a + b + m
  {
  }

  /** A turn of the first loop of l_merge. */
  method Turn(l1: Link, l2: Link, m: Link, ghost x: seq<Link>, ghost y: seq<Link>, ghost z: seq<Link>,
              ghost r1: set<Link>, ghost r2: set<Link>, ghost mr: set<Link>)
    returns (ghost x': seq<Link>, ghost y': seq<Link>, ghost z': seq<Link>, ghost r1': set<Link>, ghost r2': set<Link>, ghost mr': set<Link>)
    requires Three(l1, l2, m, x, y, z, r1, r2, mr) && x != [] && y != []
    modifies r1`next, r1`prev, r2`next, r2`prev, mr`next, mr`prev
    ensures Three(l1, l2, m, x', y', z', r1', r2', mr') && r1' + r2' + mr' == r1 + r2 + mr
    ensures z' + Merged(x', y') == z + Merged(x, y) && |x'| + |y'| < |x| + |y|
  {
    hide Ring, Merged;
    var first := Smaller(l1, l2, m, x, y, z, r1, r2, mr);
    MergedStep(x, y, z);
    if first {
      Moved(r1, r2, mr, x[0]);
      x', y', z', r1', r2', mr' := x[1..], y, z + [x[0]], r1 - {x[0]}, r2, mr + {x[0]};
    } else {
      Moved(r2, r1, mr, y[0]);
      x', y', z', r1', r2', mr' := x, y[1..], z + [y[0]], r1, r2 - {y[0]}, mr + {y[0]};
    }
  }

  /** The first loop of l_merge. */
  method Both(l1: Link, l2: Link, m: Link, ghost s1: seq<Link>, ghost s2: seq<Link>,
              ghost r1: set<Link>, ghost r2: set<Link>, ghost mr: set<Link>)
    returns (ghost x: seq<Link>, ghost y: seq<Link>, ghost z: seq<Link>, ghost xr: set<Link>, ghost yr: set<Link>, ghost zr: set<Link>)
    requires Three(l1, l2, m, s1, s2, [], r1, r2, mr)
    modifies r1`next, r1`prev, r2`next, r2`prev, mr`next, mr`prev
    ensures Three(l1, l2, m, x, y, z, xr, yr, zr) && xr + yr + zr == r1 + r2 + mr
    ensures z + Merged(x, y) == Merged(s1, s2) && (x == [] || y == [])
  {
    hide Ring, Merged;
    x, y, z, xr, yr, zr := s1, s2, [], r1, r2, mr;
    var empty1 := IsEmpty(l1, x, xr);
    var empty2 := IsEmpty(l2, y, yr);
    while !empty1 && !empty2
      invariant Three(l1, l2, m, x, y, z, xr, yr, zr) && xr + yr + zr == r1 + r2 + mr
      invariant z + Merged(x, y) == Merged(s1, s2) && (empty1 <==> x == []) && (empty2 <==> y == [])
      decreases |x| + |y|
    {
      x, y, z, xr, yr, zr := Turn(l1, l2, m, x, y, z, xr, yr, zr);
      empty1 := IsEmpty(l1, x, xr);
      empty2 := IsEmpty(l2, y, yr);
    }
  }

  /** The second loop of l_merge, and the move to the first list. */
  method Pour(rest: Link, dst: Link, m: Link, ghost w: seq<Link>, ghost z: seq<Link>, ghost wr: set<Link>, ghost mr: set<Link>)
    requires Ring(rest, w, wr) && Ring(m, z, mr) && wr !! mr && (dst == rest || dst !in wr + mr)
    modifies wr`next, wr`prev, mr`next, mr`prev, dst`next, dst`prev
    ensures rest != dst ==> Ring(rest, [], {rest})
    ensures Ring(dst, z + w, wr + mr - {rest, m} + {dst}) <==> z + w != []
  {
    Ends(rest, w, wr);
    Ends(m, z, mr);
    hide Ring;
    Drain(rest, m, w, z, wr, mr);
    Move(dst, m, z + w, wr + mr - {rest});
    assert wr + mr - {rest} - {m} == wr + mr - {rest, m};
  }

  /** The rest of l_merge. */
  method Finish(l1: Link, l2: Link, m: Link, ghost x: seq<Link>, ghost y: seq<Link>, ghost z: seq<Link>,
                ghost r1: set<Link>, ghost r2: set<Link>, ghost mr: set<Link>)
    requires Three(l1, l2, m, x, y, z, r1, r2, mr) && (x == [] || y == [])
    modifies r1`next, r1`prev, r2`next, r2`prev, mr`next, mr`prev
    ensures Ring(l2, [], {l2})
    ensures Ring(l1, z + Merged(x, y), r1 + r2 + mr - {l2, m}) <==> z + Merged(x, y) != []
  {
    MergedRest(x, y);
    Ends(m, z, mr);
    Ends(l1, x, r1);
    Ends(l2, y, r2);
    var empty1 := IsEmpty(l1, x, r1);
    if empty1 {
      Emptied(l1, r1);
      assert x + y == y && r2 + mr - {l2, m} + {l1} == r1 + r2 + mr - {l2, m};
      hide Ring, Merged;
      Pour(l2, l1, m, y, z, r2, mr);
    } else {
      Emptied(l2, r2);
      assert x + y == x && r1 + mr - {l1, m} + {l1} == r1 + r2 + mr - {l2, m};
      hide Ring, Merged;
      Pour(l1, l1, m, x, z, r1, mr);
    }
  }

  /** l_merge */
  method Merge(l1: Link, l2: Link, ghost s1: seq<Link>, ghost s2: seq<Link>, ghost r1: set<Link>, ghost r2: set<Link>)
    requires Ring(l1, s1, r1) && Ring(l2, s2, r2) && r1 !! r2
    modifies r1`next, r1`prev, r2`next, r2`prev
    ensures Ring(l2, [], {l2}) && (Ring(l1, Merged(s1, s2), r1 + r2 - {l2}) <==> s1 != [] || s2 != [])
  {
    var m := new Link(0, 0);
    ghost var x, y, z, xr, yr, zr := Both(l1, l2, m, s1, s2, r1, r2, {m});
    hide Ring, Merged, Three;
    MergedSame(s1, s2);
    Finish(l1, l2, m, x, y, z, xr, yr, zr);
    assert xr + yr + zr - {l2, m} == r1 + r2 - {l2};
  }
}
