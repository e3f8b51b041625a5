/**
 * The timers of include/cat/dlist.h: a list in which each node holds the time by which it comes after the one before
 * it. Times are integers.
 */
module DeltaLists {
  import opened Links

  /** A node and the time it has left. */
  datatype Timer = Timer(node: Link, left: int)

  predicate InOrder(d: seq<Timer>) {
    forall i, j :: 0 <= i < j < |d| ==> d[i].left <= d[j].left
  }

  function Names(d: seq<Timer>): (s: seq<Link>)
    ensures |s| == |d| && forall i :: 0 <= i < |d| ==> s[i] == d[i].node
  {
    if d == [] then [] else Names(d[..|d| - 1]) + [d[|d| - 1].node]
  }

  lemma {:induction false} NamesOf(a: seq<Timer>, b: seq<Timer>)
    ensures Names(a + b) == Names(a) + Names(b)
  {
    if b == [] {
      assert a + b == a;
    } else {
      NamesOf(a, b[..|b| - 1]);
      assert (a + b)[..|a + b| - 1] == a + b[..|b| - 1];
    }
  }

  lemma NamesCut(d: seq<Timer>, k: nat)
    requires k <= |d|
    ensures Names(d[..k]) == Names(d)[..k] && Names(d[k..]) == Names(d)[k..]
  {
    NamesOf(d[..k], d[k..]);
    assert d[..k] + d[k..] == d;
  }

  /** The time by which a timer comes after the one before it. */
  function Gap(d: seq<Timer>, i: nat): int
    requires i < |d|
  {
    if i == 0 then d[0].left else d[i].left - d[i - 1].left
  }

  /** How many timers have no more than `x` left. */
  function Due(d: seq<Timer>, x: int): (k: nat)
    ensures k <= |d| && (k < |d| ==> x < d[k].left) && forall i :: 0 <= i < k ==> d[i].left <= x
  {
    if d == [] || x < d[0].left then 0 else
      var k := Due(d[1..], x);
      assert forall i :: 0 < i < |d| ==> d[i] == d[1..][i - 1];
      k + 1
  }

  lemma DueIs(d: seq<Timer>, x: int, k: nat)
    requires k <= |d| && (k < |d| ==> x < d[k].left) && forall i :: 0 <= i < k ==> d[i].left <= x
    ensures Due(d, x) == k
  {
  }

  function Lowered(d: seq<Timer>, x: int): (e: seq<Timer>)
    ensures |e| == |d| && forall i :: 0 <= i < |d| ==> e[i] == Timer(d[i].node, d[i].left - x)
  {
    seq(|d|, i requires 0 <= i < |d| => Timer(d[i].node, d[i].left - x))
  }

  /** The place of a timer; behind the last one when it is not there. */
  function Place(d: seq<Timer>, n: Link): (k: nat)
    ensures k <= |d| && (k < |d| ==> d[k].node == n) && forall i :: 0 <= i < k ==> d[i].node != n
  {
    if d == [] || d[0].node == n then 0 else
      var k := Place(d[1..], n);
      assert forall i :: 0 < i < |d| ==> d[i] == d[1..][i - 1];
      k + 1
  }

  // ----- what happens to the timers -----

  datatype Event = Insert(timer: Timer) | Remove(node: Link) | Advance(delta: int)

  /** Timers that fire. */
  function Fired(d: seq<Timer>, e: Event): seq<Timer> {
    if e.Advance? then d[..Due(d, e.delta)] else []
  }

  function Next(d: seq<Timer>, e: Event): seq<Timer> {
    match e
    case Insert(t) => var k := Due(d, t.left); d[..k] + [t] + d[k..]
    case Remove(n) => var k := Place(d, n); if k == |d| then d else d[..k] + d[k + 1..]
    case Advance(x) => Lowered(d[Due(d, x)..], x)
  }

  lemma NextInOrder(d: seq<Timer>, e: Event)
    requires InOrder(d)
    ensures InOrder(Next(d, e))
  {
    hide Next;
    var k := NextIs(d, e);
    if e.Insert? { InsertOrder(d, e.timer, k); }
  }

  lemma InsertOrder(d: seq<Timer>, t: Timer, k: nat)
    requires InOrder(d) && k <= |d| && forall i :: 0 <= i < |d| ==> (i < k <==> d[i].left <= t.left)
    ensures InOrder(d[..k] + [t] + d[k..])
  {
    var c := d[..k] + [t] + d[k..];
    forall i, j | 0 <= i < j < |c|
      ensures c[i].left <= c[j].left
    {
      assert c[i] == if i < k then d[i] else if i == k then t else d[i - 1];
      assert c[j] == if j < k then d[j] else if j == k then t else d[j - 1];
    }
  }

  /**
   * What an event does, exactly. An insertion puts the timer behind those with no more left than it has and in front of the
   * others; a removal takes away the timer of the node; an advance fires those with no more than `delta` left and takes
   * `delta` from the others. The order of the others stays.
   */
  lemma NextIs(d: seq<Timer>, e: Event) returns (k: nat)
    requires InOrder(d)
    ensures k <= |d|
    ensures e.Insert? ==> Next(d, e) == d[..k] + [e.timer] + d[k..] && forall i :: 0 <= i < |d| ==> (i < k <==> d[i].left <= e.timer.left)
    ensures e.Remove? && k == |d| ==> Next(d, e) == d && forall i :: 0 <= i < |d| ==> d[i].node != e.node
    ensures e.Remove? && k < |d| ==> d[k].node == e.node && Next(d, e) == d[..k] + d[k + 1..]
    ensures e.Advance? ==>
      && Fired(d, e) == d[..k] && (forall i :: 0 <= i < |d| ==> (i < k <==> d[i].left <= e.delta))
      && |Next(d, e)| == |d| - k && forall i :: 0 <= i < |d| - k ==> Next(d, e)[i] == Timer(d[k + i].node, d[k + i].left - e.delta)
    ensures !e.Advance? ==> Fired(d, e) == []
  {
    hide Due, Place, InOrder;
    match e
    case Insert(t) =>
      k := Due(d, t.left);
      DueAll(d, t.left);
    case Remove(n) =>
      k := Place(d, n);
    case Advance(x) =>
      k := Due(d, x);
      DueAll(d, x);
  }

  lemma DueAll(d: seq<Timer>, x: int)
    requires InOrder(d)
    ensures forall i :: 0 <= i < |d| ==> (i < Due(d, x) <==> d[i].left <= x)
  {
  }

  lemma InsertIs(d: seq<Timer>, t: Timer)
    ensures Next(d, Insert(t)) == d[..Due(d, t.left)] + [t] + d[Due(d, t.left)..]
  {
  }

  /** The timer has come in behind those with no more left than it has, and in front of the others. */
  predicate Placed(d: seq<Timer>, t: Timer, c: seq<Timer>) {
    exists k :: 0 <= k <= |d| && c == d[..k] + [t] + d[k..] && forall i :: 0 <= i < |d| ==> (i < k <==> d[i].left <= t.left)
  }

  lemma InsertPlaced(d: seq<Timer>, t: Timer)
    requires InOrder(d)
    ensures Placed(d, t, Next(d, Insert(t)))
  {
    hide InOrder, Next;
    var k := NextIs(d, Insert(t));
  }

  /** Before the first event everything is there; each one comes after the ones before it. */
  function Run(d: seq<Timer>, es: seq<Event>): seq<Timer> {
    if es == [] then d else Next(Run(d, es[..|es| - 1]), es[|es| - 1])
  }

  function Elapsed(es: seq<Event>): int {
    if es == [] then 0 else Elapsed(es[..|es| - 1]) + Amount(es[|es| - 1])
  }

  function Amount(e: Event): int {
    if e.Advance? then e.delta else 0
  }

  predicate Mentions(e: Event, n: Link) {
    (e.Insert? && e.timer.node == n) || (e.Remove? && e.node == n)
  }

  predicate Has(d: seq<Timer>, n: Link, t: int) {
    exists i :: 0 <= i < |d| && d[i] == Timer(n, t)
  }

  predicate Lists(d: seq<Timer>, n: Link) {
    exists i :: 0 <= i < |d| && d[i].node == n
  }

  predicate Once(d: seq<Timer>) {
    forall i, j :: 0 <= i < j < |d| ==> d[i].node != d[j].node
  }

  lemma InsertOnce(d: seq<Timer>, x: Timer, k: nat)
    requires Once(d) && !Lists(d, x.node) && k <= |d|
    ensures Once(d[..k] + [x] + d[k..])
  {
    var c := d[..k] + [x] + d[k..];
    forall i, j | 0 <= i < j < |c|
      ensures c[i].node != c[j].node
    {
      assert c[i] == if i < k then d[i] else if i == k then x else d[i - 1];
      assert c[j] == if j < k then d[j] else if j == k then x else d[j - 1];
    }
  }

  lemma RemoveOnce(d: seq<Timer>, k: nat)
    requires Once(d) && k <= |d|
    ensures k < |d| ==> Once(d[..k] + d[k + 1..])
  {
  }

  lemma LoweredOnce(d: seq<Timer>, k: nat, x: int)
    requires Once(d) && k <= |d|
    ensures Once(Lowered(d[k..], x))
  {
  }

  lemma InsertHas(d: seq<Timer>, x: Timer, n: Link, t: int, k: nat)
    requires Has(d, n, t) && k <= |d|
    ensures Has(d[..k] + [x] + d[k..], n, t)
  {
    var i :| 0 <= i < |d| && d[i] == Timer(n, t);
    var c := d[..k] + [x] + d[k..];
    assert c[if i < k then i else i + 1] == d[i];
  }

  lemma RemoveHas(d: seq<Timer>, m: Link, n: Link, t: int, k: nat)
    requires Has(d, n, t) && k < |d| && d[k].node != n
    ensures Has(d[..k] + d[k + 1..], n, t)
  {
    var i :| 0 <= i < |d| && d[i] == Timer(n, t);
    var c := d[..k] + d[k + 1..];
    assert c[if i < k then i else i - 1] == d[i];
  }

  lemma DueAt(d: seq<Timer>, x: int, i: nat)
    requires InOrder(d) && i < |d|
    ensures i < Due(d, x) <==> d[i].left <= x
  {
  }

  lemma OnceAt(d: seq<Timer>, i: nat, j: nat)
    requires Once(d) && i < |d| && j < |d| && i != j
    ensures d[i].node != d[j].node
  {
  }

  lemma SplitHas(d: seq<Timer>, x: int, n: Link, t: int, k: nat)
    requires InOrder(d) && Once(d) && Has(d, n, t) && k == Due(d, x)
    ensures t <= x ==> Has(d[..k], n, t) && !Lists(Lowered(d[k..], x), n)
    ensures x < t ==> Has(Lowered(d[k..], x), n, t - x) && !Lists(d[..k], n)
  {
    hide InOrder, Once, Due;
    var i :| 0 <= i < |d| && d[i] == Timer(n, t);
    var f, c := d[..k], Lowered(d[k..], x);
    DueAt(d, x, i);
    if t <= x {
      assert f[i] == d[i];
      forall j | 0 <= j < |c|
        ensures c[j].node != n
      {
        OnceAt(d, i, k + j);
      }
    } else {
      assert c[i - k] == Timer(n, t - x);
      forall j | 0 <= j < |f|
        ensures f[j].node != n
      {
        OnceAt(d, i, j);
      }
    }
  }

  /** An event a timer has nothing to do with either fires it or takes the time from it that has passed. */
  lemma NextHas(d: seq<Timer>, e: Event, n: Link, t: int)
    requires InOrder(d) && Once(d) && Has(d, n, t) && !Mentions(e, n) && (e.Insert? ==> !Lists(d, e.timer.node))
    ensures Once(Next(d, e))
    ensures e.Advance? && t <= e.delta ==> Has(Fired(d, e), n, t) && !Lists(Next(d, e), n)
    ensures e.Advance? && e.delta < t ==> Has(Next(d, e), n, t - e.delta) && !Lists(Fired(d, e), n)
    ensures !e.Advance? ==> Has(Next(d, e), n, t)
  {
    hide Has, Lists, Once, Due, InOrder;
    match e
    case Insert(x) =>
      InsertOnce(d, x, Due(d, x.left));
      InsertHas(d, x, n, t, Due(d, x.left));
    case Remove(m) =>
      var k := Place(d, m);
      RemoveOnce(d, k);
      if k < |d| { RemoveHas(d, m, n, t, k); }
    case Advance(x) =>
      var k := Due(d, x);
      LoweredOnce(d, k, x);
      SplitHas(d, x, n, t, k);
  }

  /** In a run no node is inserted that is there. */
  predicate Sound(d: seq<Timer>, es: seq<Event>) {
    es == [] || (Sound(d, es[..|es| - 1]) && (es[|es| - 1].Insert? ==> !Lists(Run(d, es[..|es| - 1]), es[|es| - 1].timer.node)))
  }

  /** A timer waits as long as the time that has passed has not come to what it had left. */
  lemma {:induction false} Waits(d: seq<Timer>, es: seq<Event>, n: Link, t: int)
    requires InOrder(d) && Once(d) && Has(d, n, t) && Sound(d, es) && forall e :: e in es ==> !Mentions(e, n)
    requires forall m :: 0 < m <= |es| ==> Elapsed(es[..m]) < t
    ensures InOrder(Run(d, es)) && Once(Run(d, es)) && Has(Run(d, es), n, t - Elapsed(es))
  {
    if es != [] {
      var m := |es| - 1;
      forall i | 0 < i <= m
        ensures Elapsed(es[..m][..i]) < t
      {
        assert es[..m][..i] == es[..i];
      }
      Waits(d, es[..m], n, t);
      NextInOrder(Run(d, es[..m]), es[m]);
      NextHas(Run(d, es[..m]), es[m], n, t - Elapsed(es[..m]));
      assert es[..|es|] == es;
    }
  }

  /** A timer fires at the first advance by which the time it had left has passed. */
  lemma FiresFirst(d: seq<Timer>, es: seq<Event>, e: Event, n: Link, t: int)
    requires InOrder(d) && Once(d) && Has(d, n, t) && Sound(d, es + [e]) && forall f :: f in es + [e] ==> !Mentions(f, n)
    requires forall m :: 0 < m <= |es| ==> Elapsed(es[..m]) < t
    requires e.Advance?
    ensures Lists(Fired(Run(d, es), e), n) <==> t <= Elapsed(es + [e])
  {
    assert (es + [e])[..|es|] == es;
    Waits(d, es, n, t);
    NextHas(Run(d, es), e, n, t - Elapsed(es));
    assert es[..|es|] == es;
    if Has(Fired(Run(d, es), e), n, t - Elapsed(es)) { assert Lists(Fired(Run(d, es), e), n); }
  }

  // ----- the order of firing -----

  /** Both are there, `m` in front of `n`. */
  predicate Ahead(d: seq<Timer>, m: Link, n: Link) {
    exists i, j :: 0 <= i < j < |d| && d[i].node == m && d[j].node == n
  }

  lemma AheadAt(d: seq<Timer>, i: nat, j: nat)
    requires i < j < |d|
    ensures Ahead(d, d[i].node, d[j].node)
  {
  }

  lemma AheadPlaces(d: seq<Timer>, m: Link, n: Link) returns (i: nat, j: nat)
    requires Ahead(d, m, n)
    ensures i < j < |d| && d[i].node == m && d[j].node == n
  {
    i, j :| 0 <= i < j < |d| && d[i].node == m && d[j].node == n;
  }

  /** No event changes the order of two timers it has nothing to do with; if the second one fires, so does the first. */
  lemma NextAhead(d: seq<Timer>, e: Event, m: Link, n: Link)
    requires InOrder(d) && Once(d) && Ahead(d, m, n) && !Mentions(e, m) && !Mentions(e, n)
    ensures Ahead(Next(d, e), m, n) || Ahead(Fired(d, e), m, n) || (Lists(Fired(d, e), m) && Lists(Next(d, e), n))
  {
    hide InOrder, Once, Next, Fired, Ahead, Lists;
    var i, j := AheadPlaces(d, m, n);
    var k := NextIs(d, e);
    var c := Next(d, e);
    match e
    case Insert(t) =>
      AheadAt(c, if i < k then i else i + 1, if j < k then j else j + 1);
    case Remove(x) =>
      if k == |d| { AheadAt(c, i, j); } else { AheadAt(c, if i < k then i else i - 1, if j < k then j else j - 1); }
    case Advance(x) =>
      if j < k {
        assert Fired(d, e)[i] == d[i] && Fired(d, e)[j] == d[j];
        AheadAt(Fired(d, e), i, j);
      } else if k <= i {
        AheadAt(c, i - k, j - k);
      } else {
        ListsAt(Fired(d, e), i);
        ListsAt(c, j - k);
      }
  }

  lemma ListsAt(d: seq<Timer>, i: nat)
    requires i < |d|
    ensures Lists(d, d[i].node)
  {
  }

  lemma InsertAhead(d: seq<Timer>, m: Link, s: int, b: Timer)
    requires InOrder(d) && Has(d, m, s)
    ensures if s <= b.left then Ahead(Next(d, Insert(b)), m, b.node) else Ahead(Next(d, Insert(b)), b.node, m)
  {
    hide InOrder, Next, Ahead;
    var k := NextIs(d, Insert(b));
    var i :| 0 <= i < |d| && d[i] == Timer(m, s);
    if i < k { AheadAt(Next(d, Insert(b)), i, k); } else { AheadAt(Next(d, Insert(b)), k, i + 1); }
  }

  lemma InsertHasIt(d: seq<Timer>, b: Timer)
    requires InOrder(d) && Once(d) && !Lists(d, b.node)
    ensures Has(Next(d, Insert(b)), b.node, b.left) && Once(Next(d, Insert(b))) && InOrder(Next(d, Insert(b)))
  {
    hide InOrder, Once, Lists, Next;
    var k := NextIs(d, Insert(b));
    InsertOnce(d, b, k);
    NextInOrder(d, Insert(b));
    assert Next(d, Insert(b))[k] == b;
  }

  /** Two timers that wait keep their order. */
  lemma {:induction false} WaitAhead(d: seq<Timer>, es: seq<Event>, m: Link, s: int, n: Link, t: int)
    requires InOrder(d) && Once(d) && Ahead(d, m, n) && Has(d, m, s) && Has(d, n, t) && Sound(d, es)
    requires forall e :: e in es ==> !Mentions(e, m) && !Mentions(e, n)
    requires forall i :: 0 < i <= |es| ==> Elapsed(es[..i]) < s && Elapsed(es[..i]) < t
    ensures Ahead(Run(d, es), m, n)
  {
    if es != [] {
      var k := |es| - 1;
      forall i | 0 < i <= k
        ensures Elapsed(es[..k][..i]) < s && Elapsed(es[..k][..i]) < t
      {
        assert es[..k][..i] == es[..i];
      }
      hide Has, Lists, Ahead, InOrder, Once, Next, Mentions, Amount;
      assert forall e :: e in es[..k] ==> e in es;
      WaitAhead(d, es[..k], m, s, n, t);
      Waits(d, es[..k], m, s);
      Waits(d, es[..k], n, t);
      assert es[..|es|] == es;
      WaitStep(Run(d, es[..k]), es[k], m, s - Elapsed(es[..k]), n, t - Elapsed(es[..k]));
    }
  }

  lemma WaitStep(d: seq<Timer>, e: Event, m: Link, s: int, n: Link, t: int)
    requires InOrder(d) && Once(d) && Ahead(d, m, n) && Has(d, m, s) && Has(d, n, t) && Amount(e) < s && Amount(e) < t
    requires !Mentions(e, m) && !Mentions(e, n) && (e.Insert? ==> !Lists(d, e.timer.node))
    ensures Ahead(Next(d, e), m, n)
  {
    hide Has, Lists, Ahead, InOrder, Once, Next, Fired;
    NextAhead(d, e, m, n);
    NextHas(d, e, m, s);
    NextHas(d, e, n, t);
    OneOf(Fired(d, e), m, n);
    NoneFired(d, e);
  }

  lemma NoneFired(d: seq<Timer>, e: Event)
    ensures !e.Advance? ==> Fired(d, e) == [] && forall n :: !Lists(Fired(d, e), n)
  {
  }

  lemma OneOf(d: seq<Timer>, m: Link, n: Link)
    ensures Ahead(d, m, n) ==> Lists(d, m) && Lists(d, n)
  {
  }

  /**
   * Timers fire by their deadlines, and those with the same deadline in the order in which they were inserted: `a` is
   * inserted, later `b`, and an advance reaches both deadlines.
   */
  lemma FiredInOrder(d: seq<Timer>, a: Timer, es: seq<Event>, b: Timer, fs: seq<Event>, e: Event)
    requires InOrder(d) && Once(d) && !Lists(d, a.node) && a.node != b.node
    requires Sound(Next(d, Insert(a)), es) && forall f :: f in es ==> !Mentions(f, a.node)
    requires forall i :: 0 < i <= |es| ==> Elapsed(es[..i]) < a.left
    requires var r := Run(Next(d, Insert(a)), es); !Lists(r, b.node) && Sound(Next(r, Insert(b)), fs)
    requires forall f :: f in fs ==> !Mentions(f, a.node) && !Mentions(f, b.node)
    requires forall i :: 0 < i <= |fs| ==> Elapsed(fs[..i]) < a.left - Elapsed(es) && Elapsed(fs[..i]) < b.left
    requires e.Advance? && a.left - Elapsed(es) <= Elapsed(fs) + e.delta && b.left <= Elapsed(fs) + e.delta
    ensures var out := Fired(Run(Next(Run(Next(d, Insert(a)), es), Insert(b)), fs), e);
            if a.left - Elapsed(es) <= b.left then Ahead(out, a.node, b.node) else Ahead(out, b.node, a.node)
  {
    hide Has, Lists, Ahead, InOrder, Once, Next, Run, Fired, Elapsed, Sound;
    var s := a.left - Elapsed(es);
    InsertHasIt(d, a);
    Waits(Next(d, Insert(a)), es, a.node, a.left);
    var r := Run(Next(d, Insert(a)), es);
    InsertHasIt(r, b);
    NextHas(r, Insert(b), a.node, s);
    InsertAhead(r, a.node, s, b);
    var q := Next(r, Insert(b));
    Waits(q, fs, a.node, s);
    Waits(q, fs, b.node, b.left);
    var m, n := if s <= b.left then a.node else b.node, if s <= b.left then b.node else a.node;
    WaitAhead(q, fs, m, if s <= b.left then s else b.left, n, if s <= b.left then b.left else s);
    var w := Run(q, fs);
    NextAhead(w, e, m, n);
    NextHas(w, e, a.node, s - Elapsed(fs));
    NextHas(w, e, b.node, b.left - Elapsed(fs));
    OneOf(Next(w, e), m, n);
  }

  // ----- the list -----

  /** What the time of a timer is taken from. */
  function Base(d: seq<Timer>, k: nat): int
    requires k <= |d|
  {
    if k == 0 then 0 else d[k - 1].left
  }

  lemma InsertedNames(d: seq<Timer>, t: Timer, k: nat)
    requires k <= |d|
    ensures Names(d[..k] + [t] + d[k..]) == Names(d)[..k] + [t.node] + Names(d)[k..]
  {
    hide Names;
    NamesCut(d, k);
    NamesOf(d[..k] + [t], d[k..]);
    NamesOf(d[..k], [t]);
    assert Names([t]) == [t.node];
  }

  lemma Inserted(d: seq<Timer>, t: Timer, k: nat, i: nat)
    requires k <= |d| && i <= |d|
    ensures var c := d[..k] + [t] + d[k..];
      c[i] == (if i < k then d[i] else if i == k then t else d[i - 1])
      && Gap(c, i) == if i < k then Gap(d, i) else if i == k then t.left - Base(d, k) else if i == k + 1 then d[k].left - t.left else Gap(d, i - 1)
  {
  }

  /** The fields of all nodes say what they should. */
  ghost predicate Told(d: seq<Timer>, nodes: set<Link>)
    reads nodes`ttl
  {
    forall i {:trigger d[i]} :: 0 <= i < |d| ==> d[i].node in nodes && d[i].node.ttl == Gap(d, i)
  }

  ghost predicate ToldBut(d: seq<Timer>, k: nat, nodes: set<Link>)
    reads nodes`ttl
  {
    forall i {:trigger d[i]} :: 0 <= i < |d| ==> d[i].node in nodes && (i != k ==> d[i].node.ttl == Gap(d, i))
  }

  lemma InsertedTold(d: seq<Timer>, x: Timer, k: nat, c: seq<Timer>, nodes: set<Link>)
    requires k <= |d| && x.node.ttl == x.left - Base(d, k) && c == d[..k] + [x] + d[k..]
    requires ToldBut(d, k, nodes) && (k < |d| ==> d[k].node.ttl == d[k].left - x.left)
    ensures Told(c, nodes + {x.node})
  {
    forall i | 0 <= i <= |d|
      ensures c[i].node in nodes + {x.node} && c[i].node.ttl == Gap(c, i)
    {
      Inserted(d, x, k, i);
    }
  }

  lemma GapHere(d: seq<Timer>, nodes: set<Link>, k: nat)
    requires Told(d, nodes) && k < |d|
    ensures d[k].node.ttl == Gap(d, k)
  {
  }

  lemma AllTold(d: seq<Timer>, nodes: set<Link>, k: nat)
    requires Told(d, nodes)
    ensures ToldBut(d, k, nodes)
  {
  }

  /** The list has these timers. */
  ghost predicate Listed(h: Link, d: seq<Timer>, nodes: set<Link>)
    reads nodes
  {
    Ring(h, Names(d), nodes) && Told(d, nodes)
  }

  lemma WhereIs(h: Link, d: seq<Timer>, nodes: set<Link>, e: Link)
    requires Listed(h, d, nodes) && e != h
    ensures Place(d, e) < |d| <==> e in nodes
  {
    var k := Place(d, e);
    Ends(h, Names(d), nodes);
    assert k < |d| ==> Names(d)[k] == e && Names(d)[k] in nodes;
    if e in nodes {
      assert e in Names(d);
      var i :| 0 <= i < |d| && Names(d)[i] == e;
    }
  }

  /** The timers are those of different nodes. */
  lemma Different(h: Link, d: seq<Timer>, nodes: set<Link>, k: nat)
    requires Listed(h, d, nodes) && k < |d|
    ensures Others(d, k) && d[k].node in nodes && d[k].node != h && d[k].node.next != d[k].node
  {
    Neighbours(h, Names(d), nodes, k);
    assert forall i :: 0 <= i < |d| ==> Names(d)[i] == d[i].node;
  }

  predicate Others(d: seq<Timer>, k: nat)
    requires k < |d|
  {
    forall i {:trigger d[i]} :: 0 <= i < |d| && i != k ==> d[i].node != d[k].node
  }

  lemma RemovedNames(d: seq<Timer>, k: nat)
    requires k < |d|
    ensures Names(d[..k] + d[k + 1..]) == Names(d)[..k] + Names(d)[k + 1..]
  {
    hide Names;
    NamesCut(d, k);
    NamesCut(d, k + 1);
    NamesOf(d[..k], d[k + 1..]);
  }

  lemma RemovedTold(d: seq<Timer>, k: nat, c: seq<Timer>, nodes: set<Link>)
    requires k < |d| && Others(d, k) && c == d[..k] + d[k + 1..]
    requires ToldBut(d, k + 1, nodes) && (k + 1 < |d| ==> d[k + 1].node.ttl == Gap(d, k + 1) + Gap(d, k))
    ensures Told(c, nodes - {d[k].node})
  {
    forall i | 0 <= i < |c|
      ensures c[i].node in nodes - {d[k].node} && c[i].node.ttl == Gap(c, i)
    {
      assert c[i] == if i < k then d[i] else d[i + 1];
      assert i > 0 ==> c[i - 1] == if i <= k then d[i - 1] else d[i];
    }
  }

  lemma RestNames(d: seq<Timer>, k: nat, x: int)
    requires k <= |d|
    ensures Names(Lowered(d[k..], x)) == Names(d)[k..]
  {
  }

  /** The timers behind place `k`, with as much less left as the first of them has been lowered. */
  lemma RestTold(d: seq<Timer>, k: nat, c: seq<Timer>, x: int, nodes: set<Link>)
    requires k <= |d| && c == Lowered(d[k..], x) && ToldBut(d, k, nodes) && (k < |d| ==> d[k].node.ttl == d[k].left - x)
    ensures Told(c, nodes)
  {
    forall i | 0 <= i < |c|
      ensures c[i].node in nodes && c[i].node.ttl == Gap(c, i)
    {
      assert c[i] == Timer(d[k + i].node, d[k + i].left - x);
      assert i > 0 ==> c[i - 1] == Timer(d[k + i - 1].node, d[k + i - 1].left - x);
    }
  }

  lemma LoweredOrder(d: seq<Timer>, k: nat, x: int)
    requires InOrder(d) && k <= |d|
    ensures InOrder(Lowered(d[k..], x))
  {
  }

  lemma SameRing(h: Link, d: seq<Timer>, nodes: set<Link>)
    requires Listed(h, d, nodes)
    ensures Ring(h, Names(d), nodes)
  {
  }

  lemma GapBase(d: seq<Timer>, k: nat)
    requires k < |d|
    ensures Gap(d, k) == d[k].left - Base(d, k)
  {
  }

  lemma AdvanceIs(d: seq<Timer>, x: int)
    ensures Next(d, Advance(x)) == Lowered(d[Due(d, x)..], x) && Fired(d, Advance(x)) == d[..Due(d, x)]
    ensures Names(Fired(d, Advance(x))) == Names(d)[..Due(d, x)]
  {
    NamesCut(d, Due(d, x));
  }

  lemma RemoveIs(d: seq<Timer>, e: Link)
    ensures var k := Place(d, e); Next(d, Remove(e)) == if k == |d| then d else d[..k] + d[k + 1..]
  {
  }

  lemma ToldIn(h: Link, c: seq<Timer>, nodes: set<Link>, rest: set<Link>)
    requires Told(c, nodes) && Ring(h, Names(c), rest)
    ensures Listed(h, c, rest)
  {
    Ends(h, Names(c), rest);
    forall i | 0 <= i < |c|
      ensures c[i].node in rest
    {
      assert Names(c)[i] in Names(c);
    }
  }

  /** After the first one has been taken away without its time. */
  lemma DeqTold(d: seq<Timer>, nodes: set<Link>)
    requires d != [] && Told(d, nodes)
    ensures Told(Lowered(d[1..], d[0].left), nodes)
  {
    AllTold(d, nodes, 1);
    RestTold(d, 1, Lowered(d[1..], d[0].left), d[0].left, nodes);
  }

  /** The sum of the first `n` times in the list. */
  ghost function Total(d: seq<Timer>, n: nat, nodes: set<Link>): int
    requires n <= |d| && forall i :: 0 <= i < |d| ==> d[i].node in nodes
    reads nodes`ttl
  {
    if n == 0 then 0 else Total(d, n - 1, nodes) + d[n - 1].node.ttl
  }

  /** What a timer has left is the sum of the times up to its own. */
  lemma {:induction false} PrefixSums(h: Link, d: seq<Timer>, nodes: set<Link>, k: nat)
    requires Listed(h, d, nodes) && k < |d|
    ensures Total(d, k + 1, nodes) == d[k].left
  {
    if k > 0 { PrefixSums(h, d, nodes, k - 1); }
  }

  /** dl_init */
  method Init(ttl: int) returns (e: Link)
    ensures fresh(e) && Ring(e, [], {e}) && e.ttl == if ttl < 0 then 0 else ttl
  {
    e := new Link(0, if ttl < 0 then 0 else ttl);
  }

  class DeltaList {
    const head: Link
    ghost var timers: seq<Timer>
    ghost var nodes: set<Link>

    ghost predicate Valid()
      reads this, nodes
    {
      InOrder(timers) && Listed(head, timers, nodes)
    }

    /** dl_init for a list */
    constructor ()
      ensures Valid() && timers == [] && fresh(head) && nodes == {head}
    {
      var h := new Link(0, 0);
      head, timers, nodes := h, [], {h};
    }

    /** The loop of dl_ins and of dl_adv: the first timer with more than `x` left, and what is left of `x` there. */
    method Walk(x: int) returns (t: Link, left: int, ghost k: nat)
      requires Valid()
      ensures k == Due(timers, x)
      ensures var d := Due(timers, x); t == (if d == |timers| then head else timers[d].node) && left == x - Base(timers, d)
    {
      ghost var d, s := timers, Names(timers);
      Ends(head, s, nodes);
      t, left, k := head.next, x, 0;
      while t != head
        invariant k <= |d| && t == (if k == |d| then head else d[k].node) && left == x - Base(d, k)
        invariant forall i :: 0 <= i < k ==> d[i].left <= x
        decreases |d| - k
      {
        if left < t.ttl {
          DueIs(d, x, k);
          return;
        }
        Neighbours(head, s, nodes, k);
        left, t, k := left - t.ttl, t.next, k + 1;
      }
      if k < |d| { Neighbours(head, s, nodes, k); }
      DueIs(d, x, k);
    }

    /** dl_ins */
    method Ins(node: Link)
      requires Valid() && node !in nodes
      modifies this, nodes, node
      ensures Valid() && nodes == old(nodes) + {node}
      ensures timers == Next(old(timers), Insert(Timer(node, old(node.ttl))))
      ensures Placed(old(timers), Timer(node, old(node.ttl)), timers)
    {
      hide Listed, InOrder, Next, Due, Placed;
      ghost var d, x := timers, Timer(node, node.ttl);
      ghost var c := Next(d, Insert(x));
      InsertPlaced(d, x);
      NextInOrder(d, Insert(x));
      InsertIs(d, x);
      var t, ttl, k := Walk(node.ttl);
      Put(t, node, ttl, d, k, x, c);
      timers, nodes := c, nodes + {node};
    }

    /** dl_ins once the place is known. */
    method Put(t: Link, node: Link, ttl: int, ghost d: seq<Timer>, ghost k: nat, ghost x: Timer, ghost c: seq<Timer>)
      requires Listed(head, d, nodes) && node !in nodes && x.node == node && k <= |d| && c == d[..k] + [x] + d[k..]
      requires t == (if k == |d| then head else d[k].node) && ttl == x.left - Base(d, k)
      modifies nodes, node
      ensures Listed(head, c, nodes + {node})
    {
      InsertedNames(d, x, k);
      hide Ring, Names, Gap, Told;
      PutBefore(t, node, ttl, d, k);
      InsertedTold(d, x, k, c, nodes);
    }

    /** The writes of dl_ins. */
    method PutBefore(t: Link, node: Link, ttl: int, ghost d: seq<Timer>, ghost k: nat)
      requires Listed(head, d, nodes) && node !in nodes && k <= |d| && t == (if k == |d| then head else d[k].node)
      modifies nodes, node
      ensures Ring(head, Names(d)[..k] + [node] + Names(d)[k..], nodes + {node}) && node.ttl == ttl
      ensures ToldBut(d, k, nodes) && (k < |d| ==> d[k].node.ttl == Gap(d, k) - ttl)
    {
      hide Ring, Names, Told, ToldBut, Gap;
      ghost var s := Names(d);
      Ends(head, s, nodes);
      if k < |s| { Neighbours(head, s, nodes, k); }
      var prev := t.prev;
      if t != head {
        SetTtl(t, t.ttl - ttl, d, k);
      } else {
        AllTold(d, nodes, k);
      }
      Links.Ins(prev, node, head, s, nodes, k);
      node.ttl := ttl;
    }

    method SetTtl(t: Link, ttl: int, ghost d: seq<Timer>, ghost k: nat)
      requires Listed(head, d, nodes) && k <= |d| && t == (if k == |d| then head else d[k].node)
      modifies t`ttl
      ensures ToldBut(d, k, nodes) && t.ttl == ttl && (k < |d| ==> old(t.ttl) == Gap(d, k))
    {
      Ends(head, Names(d), nodes);
      if k < |d| { Neighbours(head, Names(d), nodes, k); }
      hide Ring;
      t.ttl := ttl;
    }

    /** dl_first: -1 stands for the time that is not normal. */
    method First() returns (ttl: int)
      requires Valid()
      ensures ttl == if timers == [] then -1 else timers[0].left
    {
      Ends(head, Names(timers), nodes);
      hide Ring;
      ttl := if head.next == head then -1 else head.next.ttl;
    }

    /** dl_rem: the time of the node goes to the next one, be it the head. */
    method Rem(elem: Link)
      requires Valid() && elem != head && (elem in nodes || Ring(elem, [], {elem}))
      modifies this, nodes, elem
      ensures Valid() && nodes == old(nodes) - {elem} && timers == Next(old(timers), Remove(elem))
      ensures Ring(elem, [], {elem}) && elem.ttl == old(elem.ttl)
    {
      hide Ring, Names, Told, Listed, Next, InOrder, Place;
      ghost var d, k := timers, Place(timers, elem);
      NextInOrder(d, Remove(elem));
      WhereIs(head, d, nodes, elem);
      RemoveIs(d, elem);
      if elem in nodes { Different(head, d, nodes, k); } else { Ends(elem, [], {elem}); }
      if elem.next != elem {
        Take(elem, d, k, Next(d, Remove(elem)));
        timers, nodes := Next(d, Remove(elem)), nodes - {elem};
      }
    }

    /** dl_rem of a node of the list. */
    method Take(elem: Link, ghost d: seq<Timer>, ghost k: nat, ghost c: seq<Timer>)
      requires Listed(head, d, nodes) && k < |d| && elem == d[k].node && c == d[..k] + d[k + 1..]
      modifies nodes
      ensures Listed(head, c, nodes - {elem}) && Ring(elem, [], {elem}) && elem.ttl == old(elem.ttl)
    {
      hide Ring, Names, Told, ToldBut, Gap, Others;
      ghost var s := Names(d);
      Neighbours(head, s, nodes, k);
      Different(head, d, nodes, k);
      GapHere(d, nodes, k);
      Ends(head, s, nodes);
      assert k + 1 < |d| ==> s[k + 1] in s;
      var next := elem.next;
      SetTtl(next, next.ttl + elem.ttl, d, k + 1);
      Links.Rem(elem, head, s, nodes, k);
      RemovedNames(d, k);
      RemovedTold(d, k, c, nodes);
    }

    /** dl_update */
    method Update(elem: Link, ttl: int)
      requires Valid() && elem != head && (elem in nodes || Ring(elem, [], {elem}))
      modifies this, nodes, elem
      ensures Valid() && nodes == old(nodes) + {elem}
      ensures timers == Next(Next(old(timers), Remove(elem)), Insert(Timer(elem, if ttl < 0 then 0 else ttl)))
    {
      hide Next, Listed, Ring, InOrder;
      Rem(elem);
      elem.ttl := if ttl < 0 then 0 else ttl;
      Ins(elem);
    }

    /** dl_deq: what the first timer had left, the others have less. */
    method Deq() returns (e: Link?)
      requires Valid()
      modifies this, nodes
      ensures Valid() && (e == null <==> old(timers) == [])
      ensures e == null ==> timers == [] && nodes == old(nodes)
      ensures e != null ==> e == old(timers)[0].node && nodes == old(nodes) - {e} && Ring(e, [], {e})
      ensures e != null ==> timers == Lowered(old(timers)[1..], old(timers)[0].left)
    {
      hide Listed, Ring, InOrder;
      ghost var d := timers;
      SameRing(head, d, nodes);
      var empty := IsEmpty(head, Names(d), nodes);
      e := null;
      if !empty {
        LoweredOrder(d, 1, d[0].left);
        e := DropFront(d);
        timers, nodes := Lowered(d[1..], d[0].left), nodes - {e};
      }
    }

    method DropFront(ghost d: seq<Timer>) returns (e: Link)
      requires Listed(head, d, nodes) && d != []
      modifies nodes
      ensures e == d[0].node && Listed(head, Lowered(d[1..], d[0].left), nodes - {e}) && Ring(e, [], {e}) && e in nodes
    {
      hide Ring, Names, Told, Lowered;
      ghost var s, c := Names(d), Lowered(d[1..], d[0].left);
      DeqTold(d, nodes);
      RestNames(d, 1, d[0].left);
      Different(head, d, nodes, 0);
      Ends(head, s, nodes);
      e := head.next;
      assert s[..0] + s[0 + 1..] == s[1..];
      Links.Rem(e, head, s, nodes, 0);
      ToldIn(head, c, nodes, nodes - {e});
    }

    /** dl_adv once the first timer is known that does not fire. */
    method FireFront(t: Link, left: int, out: Link, ghost d: seq<Timer>, ghost k: nat, ghost delta: int, ghost fired: set<Link>)
      requires Listed(head, d, nodes) && Ring(out, [], {out}) && out !in nodes && k <= |d| && t == (if k == |d| then head else d[k].node)
      requires left == delta - Base(d, k) && fired == set x | x in Names(d)[..k]
      modifies nodes, out
      ensures Listed(head, Lowered(d[k..], delta), nodes - fired) && Ring(out, Names(d)[..k], {out} + fired)
    {
      hide Ring, Names, Told, ToldBut, Lowered, Gap;
      ghost var s, c := Names(d), Lowered(d[k..], delta);
      Ends(head, s, nodes);
      if k < |d| {
        Neighbours(head, s, nodes, k);
        GapBase(d, k);
      }
      if k > 0 { Neighbours(head, s, nodes, k - 1); }
      if t != head {
        SetTtl(t, t.ttl - left, d, k);
      } else {
        AllTold(d, nodes, k);
      }
      RestTold(d, k, c, delta, nodes);
      RestNames(d, k, delta);
      var first, last := head.next, t.prev;
      if last.next == first {
        assert k == 0 && s[k..] == s && s[..k] == [] && nodes - fired == nodes && {out} + fired == {out};
      } else {
        SplitFront(head, out, last, s, nodes, k);
        assert fired == set x | x in s[..k];
      }
      assert Ring(head, s[k..], nodes - fired) && Ring(out, s[..k], {out} + fired);
      ToldIn(head, c, nodes, nodes - fired);
    }

    /** dl_adv */
    method Adv(delta: int, out: Link) returns (ghost fired: set<Link>)
      requires Valid() && out !in nodes
      modifies this, nodes, out
      ensures Valid() && timers == Next(old(timers), Advance(delta)) && nodes == old(nodes) - fired
      ensures fired == (set x | x in Names(Fired(old(timers), Advance(delta)))) && Ring(out, Names(Fired(old(timers), Advance(delta))), {out} + fired)
    {
      hide Ring, Listed, Next, InOrder, Fired, Due, Names;
      ghost var d := timers;
      NextInOrder(d, Advance(delta));
      AdvanceIs(d, delta);
      SameRing(head, d, nodes);
      out.next, out.prev := out, out;
      Alone(out);
      fired := {};
      var empty := IsEmpty(head, Names(d), nodes);
      if !empty {
        var t, left, k := Walk(delta);
        fired := set x | x in Names(d)[..k];
        FireFront(t, left, out, d, k, delta, fired);
        timers, nodes := Lowered(d[k..], delta), nodes - fired;
      } else {
        assert Names(d)[..Due(d, delta)] == [] && {out} + fired == {out} && nodes - fired == nodes;
      }
    }
  }
}