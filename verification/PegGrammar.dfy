/**
 * Grammars for the recogniser of src/cpg.c as arenas of nodes, and what it means for one to match. A node refers to
 * others by index; a negative index ends a list, and as the definition of an identifier it is a token.
 */
module PegGrammar {

  const TOK_FIRST := 128

  datatype Attr = None | And | Not | Question | Star | Plus

  /** struct peg_node. A class is the set of its characters. */
  datatype Node =
    | Definition(expr: int)
    | Sequence(pri: int, next: int)
    | Primary(match_: int, prefix: Attr, suffix: Attr, next: int)
    | Identifier(def: int)
    | Literal(value: seq<int>)
    | Class(cset: set<int>)

  datatype Grammar = Grammar(nodes: seq<Node>, tokens: nat) {

    predicate Has(i: int) {
      0 <= i < |nodes|
    }

    /** PEG_IDX_IS_TOKEN */
    predicate IsToken(i: int) {
      TOK_FIRST <= -i < TOK_FIRST + tokens
    }
  }

  /**
   * Why matching ends. `rank` falls from a node to every node that is tried at the same place; `expr`, `rest` and `prim`
   * hold every expression, rest of a sequence and primary that can match without moving.
   */
  datatype Analysis = Analysis(rank: seq<nat>, expr: set<int>, rest: set<int>, prim: set<int>)

  predicate RestNull(a: Analysis, i: int) {
    i < 0 || i in a.rest
  }

  predicate ExprNull(a: Analysis, i: int) {
    i >= 0 && i in a.expr
  }

  /** What a primary refers to can match without moving. */
  predicate MatchNull(g: Grammar, a: Analysis, i: int) {
    g.Has(i) &&
    match g.nodes[i]
    case Sequence(_, _) => ExprNull(a, i)
    case Identifier(def) => g.Has(def) && g.nodes[def].Definition? && ExprNull(a, g.nodes[def].expr)
    case Literal(value) => value == []
    case Class(_) => false
    case Definition(_) => false
    case Primary(_, _, _, _) => false
  }

  predicate SeqIdx(g: Grammar, i: int) {
    i < 0 || (g.Has(i) && g.nodes[i].Sequence?)
  }

  predicate PrimIdx(g: Grammar, i: int) {
    i < 0 || (g.Has(i) && g.nodes[i].Primary?)
  }

  predicate DefIdx(g: Grammar, i: int) {
    g.Has(i) && g.nodes[i].Definition? && SeqIdx(g, g.nodes[i].expr)
  }

  /** The node at `i` is well formed, and the analysis is right about it. */
  predicate NodeOk(g: Grammar, a: Analysis, i: int)
    requires g.Has(i) && |a.rank| == |g.nodes|
  {
    match g.nodes[i]
    case Definition(expr) => SeqIdx(g, expr)
    case Sequence(pri, next) =>
      && PrimIdx(g, pri) && SeqIdx(g, next)
      && (pri >= 0 ==> a.rank[pri] < a.rank[i]) && (next >= 0 ==> a.rank[next] < a.rank[i])
      && (RestNull(a, pri) || ExprNull(a, next) ==> i in a.expr)
    case Primary(m, prefix, suffix, next) =>
      && g.Has(m) && !g.nodes[m].Definition? && !g.nodes[m].Primary? && PrimIdx(g, next) && a.rank[m] < a.rank[i]
      && (prefix == None || prefix == And || prefix == Not) && suffix != And && suffix != Not
      && (prefix != None || suffix == Question || suffix == Star || MatchNull(g, a, m) ==> i in a.prim)
      && (i in a.prim && RestNull(a, next) ==> i in a.rest)
      && (i in a.prim && next >= 0 ==> a.rank[next] < a.rank[i])
      && (suffix == Star || suffix == Plus ==> !MatchNull(g, a, m))
    case Identifier(def) =>
      g.IsToken(def) || (DefIdx(g, def) && (g.nodes[def].expr >= 0 ==> a.rank[g.nodes[def].expr] < a.rank[i]))
    case Literal(_) => true
    case Class(_) => true
  }

  ghost predicate Good(g: Grammar, a: Analysis) {
    |a.rank| == |g.nodes| && forall i {:trigger NodeOk(g, a, i)} :: g.Has(i) ==> NodeOk(g, a, i)
  }

  // ----- what matches -----

  /** Where a match ends, if there is one, and whether the end of the input was looked at. */
  datatype Out = Ok(end: nat, seen: bool) | Fail(seen: bool) {

    function Seen(more: bool): Out {
      if Ok? then Ok(end, seen || more) else Fail(seen || more)
    }
  }

  type Input = seq<int>

  /** The characters `value[k..]` at `pos`. */
  function Chars(s: Input, value: seq<int>, pos: nat): (r: Out)
    requires pos <= |s|
    ensures r.Ok? ==> pos <= r.end <= |s| && (r.end == pos <==> value == [])
  {
    if value == [] then Ok(pos, false)
    else if pos == |s| then Fail(true)
    else if s[pos] != value[0] then Fail(false)
    else Chars(s, value[1..], pos + 1)
  }

  /** One character that satisfies `ok`. */
  function OneChar(s: Input, cset: set<int>, pos: nat): (r: Out)
    requires pos <= |s|
    ensures r.Ok? ==> r.end == pos + 1 <= |s|
  {
    if pos == |s| then Fail(true) else if s[pos] in cset then Ok(pos + 1, false) else Fail(false)
  }

  /** The text is there. */
  predicate TextAt(s: Input, value: seq<int>, pos: nat) {
    pos + |value| <= |s| && s[pos..pos + |value|] == value
  }

  /** A literal matches exactly where its text is. A failure has met the end if the input ends inside of the text. */
  lemma {:induction false} CharsIs(s: Input, value: seq<int>, pos: nat)
    requires pos <= |s|
    ensures var r := Chars(s, value, pos);
            && (r.Ok? <==> TextAt(s, value, pos))
            && (r.Ok? ==> r.end == pos + |value| && !r.seen)
            && (r.Fail? ==> (r.seen <==> |s| - pos < |value| && s[pos..] == value[..|s| - pos]))
    decreases |value|
  {
    if value != [] && pos < |s| {
      var v, n := value[1..], |value|;
      CharsIs(s, v, pos + 1);
      if pos + n <= |s| {
        var w := s[pos..pos + n];
        assert w[0] == s[pos] && w[1..] == s[pos + 1..pos + 1 + |v|];
        assert w == [w[0]] + w[1..] && value == [value[0]] + v;
      } else {
        var m := |s| - pos;
        assert s[pos..] == [s[pos]] + s[pos + 1..] && value[..m] == [value[0]] + v[..m - 1];
        assert s[pos..][0] == s[pos] && s[pos..][1..] == s[pos + 1..] && value[..m][0] == value[0] && value[..m][1..] == v[..m - 1];
      }
    }
  }

  lemma OneCharIs(s: Input, cset: set<int>, pos: nat)
    requires pos <= |s|
    ensures var r := OneChar(s, cset, pos);
            && (r.Ok? <==> pos < |s| && s[pos] in cset) && (r.Ok? ==> r.end == pos + 1 && !r.seen)
            && (r.Fail? ==> (r.seen <==> pos == |s|))
  {
  }

  /** A lookahead does not move. */
  function Prefixed(prefix: Attr, r: Out, pos: nat): Out {
    match prefix
    case And => if r.Ok? then Ok(pos, r.seen) else r
    case Not => if r.Ok? then Fail(r.seen) else Ok(pos, r.seen)
    case _ => r
  }

  /** The outcome is within the input, and does not stand still where the analysis excludes it. */
  predicate Within(r: Out, pos: nat, s: Input, stay: bool) {
    r.Ok? ==> pos <= r.end <= |s| && (r.end == pos ==> stay)
  }

  /** An ordered choice: the first sequence that matches. */
  function Choice(g: Grammar, a: Analysis, s: Input, i: int, pos: nat): (r: Out)
    requires Good(g, a) && SeqIdx(g, i) && pos <= |s|
    ensures Within(r, pos, s, ExprNull(a, i))
    decreases |s| - pos, if i < 0 then 0 else a.rank[i] + 1, 4
  {
    if i < 0 then Fail(false)
    else
      assert NodeOk(g, a, i);
      var r := Rest(g, a, s, g.nodes[i].pri, pos);
      if r.Ok? then r else Choice(g, a, s, g.nodes[i].next, pos).Seen(r.seen)
  }

  /** The primaries from `i` on, one after the other. */
  function Rest(g: Grammar, a: Analysis, s: Input, i: int, pos: nat): (r: Out)
    requires Good(g, a) && PrimIdx(g, i) && pos <= |s|
    ensures Within(r, pos, s, RestNull(a, i))
    decreases |s| - pos, if i < 0 then 0 else a.rank[i] + 1, 3
  {
    if i < 0 then Ok(pos, false)
    else
      assert NodeOk(g, a, i);
      var r := Prim(g, a, s, i, pos);
      if r.Ok? then Rest(g, a, s, g.nodes[i].next, r.end).Seen(r.seen) else r
  }

  /** A primary with its prefix and suffix. */
  function Prim(g: Grammar, a: Analysis, s: Input, i: int, pos: nat): (r: Out)
    requires Good(g, a) && g.Has(i) && g.nodes[i].Primary? && pos <= |s|
    ensures Within(r, pos, s, i in a.prim)
    decreases |s| - pos, a.rank[i] + 1, 2
  {
    assert NodeOk(g, a, i);
    var n := g.nodes[i];
    var m := Match(g, a, s, n.match_, pos);
    var r := match n.suffix
      case Question => if m.Ok? then m else Ok(pos, m.seen)
      case Star => Many(g, a, s, i, pos)
      case Plus => if m.Ok? then Many(g, a, s, i, m.end).Seen(m.seen) else m
      case _ => m;
    Prefixed(n.prefix, r, pos)
  }

  /** As often as it matches. */
  function Many(g: Grammar, a: Analysis, s: Input, i: int, pos: nat): (r: Out)
    requires Good(g, a) && g.Has(i) && g.nodes[i].Primary? && pos <= |s|
    requires g.nodes[i].suffix == Star || g.nodes[i].suffix == Plus
    ensures Within(r, pos, s, true) && r.Ok?
    decreases |s| - pos, a.rank[i] + 1, 1
  {
    assert NodeOk(g, a, i);
    var m := Match(g, a, s, g.nodes[i].match_, pos);
    if m.Ok? then Many(g, a, s, i, m.end).Seen(m.seen) else Ok(pos, m.seen)
  }

  /** What a primary refers to. */
  function Match(g: Grammar, a: Analysis, s: Input, i: int, pos: nat): (r: Out)
    requires Good(g, a) && g.Has(i) && !g.nodes[i].Definition? && !g.nodes[i].Primary? && pos <= |s|
    ensures Within(r, pos, s, MatchNull(g, a, i))
    decreases |s| - pos, a.rank[i] + 1, 5
  {
    assert NodeOk(g, a, i);
    match g.nodes[i]
    case Sequence(_, _) => Choice(g, a, s, i, pos)
    case Identifier(def) =>
      if g.IsToken(def) then OneChar(s, {-def}, pos) else Choice(g, a, s, g.nodes[def].expr, pos)
    case Literal(value) => Chars(s, value, pos)
    case Class(cset) => OneChar(s, cset, pos)
  }

  // ----- what repetitions, sequences and choices come to -----

  /** What the primary at `i` refers to, matched at `pos`. */
  function Refer(g: Grammar, a: Analysis, s: Input, i: int, pos: nat): Out
    requires Good(g, a) && g.Has(i) && g.nodes[i].Primary? && pos <= |s|
  {
    assert NodeOk(g, a, i);
    Match(g, a, s, g.nodes[i].match_, pos)
  }

  /** From each of these places the primary's reference matches up to the next one, and from the last it does not match. */
  predicate Repeats(g: Grammar, a: Analysis, s: Input, i: int, ps: seq<nat>)
    requires Good(g, a) && g.Has(i) && g.nodes[i].Primary?
    decreases |ps|
  {
    && ps != [] && ps[0] <= |s|
    && var m := Refer(g, a, s, i, ps[0]);
       if |ps| == 1 then m.Fail? else m.Ok? && m.end == ps[1] && Repeats(g, a, s, i, ps[1..])
  }

  /** A repetition is greedy: it goes on from match to match until there is none. */
  lemma {:induction false} ManyIs(g: Grammar, a: Analysis, s: Input, i: int, pos: nat) returns (ps: seq<nat>)
    requires Good(g, a) && g.Has(i) && g.nodes[i].Primary? && pos <= |s|
    requires g.nodes[i].suffix == Star || g.nodes[i].suffix == Plus
    ensures Repeats(g, a, s, i, ps) && ps[0] == pos && Many(g, a, s, i, pos).end == ps[|ps| - 1]
    decreases |s| - pos
  {
    hide Within, MatchNull;
    assert NodeOk(g, a, i);
    var m := Refer(g, a, s, i, pos);
    ReferMoves(g, a, s, i, pos);
    if m.Ok? {
      var qs := ManyIs(g, a, s, i, m.end);
      ps := [pos] + qs;
      assert ps[1..] == qs;
    } else {
      ps := [pos];
    }
  }

  lemma ReferMoves(g: Grammar, a: Analysis, s: Input, i: int, pos: nat)
    requires Good(g, a) && g.Has(i) && g.nodes[i].Primary? && pos <= |s| && (g.nodes[i].suffix == Star || g.nodes[i].suffix == Plus)
    ensures var m := Refer(g, a, s, i, pos);
            && (m.Ok? ==> pos < m.end <= |s|)
            && Many(g, a, s, i, pos) == if m.Ok? then Many(g, a, s, i, m.end).Seen(m.seen) else Ok(pos, m.seen)
  {
    assert NodeOk(g, a, i);
  }

  lemma {:induction false} RepeatsOnce(g: Grammar, a: Analysis, s: Input, i: int, ps: seq<nat>, qs: seq<nat>)
    requires Good(g, a) && g.Has(i) && g.nodes[i].Primary? && Repeats(g, a, s, i, ps) && Repeats(g, a, s, i, qs) && ps[0] == qs[0]
    ensures ps == qs
    decreases |ps|
  {
    hide Refer;
    if |ps| > 1 && |qs| > 1 {
      RepeatsOnce(g, a, s, i, ps[1..], qs[1..]);
      assert ps == [ps[0]] + ps[1..] && qs == [qs[0]] + qs[1..];
    }
  }

  /** `*` takes all of these matches, and `+` all of them if there is one. */
  lemma RepeatIs(g: Grammar, a: Analysis, s: Input, i: int, ps: seq<nat>)
    requires Good(g, a) && g.Has(i) && g.nodes[i].Primary? && g.nodes[i].prefix == None && Repeats(g, a, s, i, ps)
    requires g.nodes[i].suffix == Star || g.nodes[i].suffix == Plus
    ensures var r := Prim(g, a, s, i, ps[0]);
            (r.Ok? <==> g.nodes[i].suffix == Star || |ps| >= 2) && (r.Ok? ==> r.end == ps[|ps| - 1])
  {
    hide Within, MatchNull;
    assert NodeOk(g, a, i);
    var qs := ManyIs(g, a, s, i, ps[0]);
    RepeatsOnce(g, a, s, i, ps, qs);
    ReferMoves(g, a, s, i, ps[0]);
  }

  /** `?` takes one match if there is one, and without a suffix there has to be one. */
  lemma SingleIs(g: Grammar, a: Analysis, s: Input, i: int, pos: nat)
    requires Good(g, a) && g.Has(i) && g.nodes[i].Primary? && g.nodes[i].prefix == None && pos <= |s|
    requires g.nodes[i].suffix != Star && g.nodes[i].suffix != Plus
    ensures var m, r := Refer(g, a, s, i, pos), Prim(g, a, s, i, pos);
            (r.Ok? <==> m.Ok? || g.nodes[i].suffix == Question) && (r.Ok? ==> r.end == if m.Ok? then m.end else pos)
  {
    assert NodeOk(g, a, i);
  }

  /** The nodes that follow each other from `i` on, by their `next`. */
  predicate InList(g: Grammar, i: int, ns: seq<int>) {
    && (forall k :: 0 <= k < |ns| ==> g.Has(ns[k]) && (g.nodes[ns[k]].Primary? || g.nodes[ns[k]].Sequence?))
    && forall k :: 0 <= k < |ns| ==> ns[k] == if k == 0 then i else g.nodes[ns[k - 1]].next
  }

  /** The node behind them. */
  function Behind(g: Grammar, i: int, ns: seq<int>): int
    requires InList(g, i, ns)
  {
    if ns == [] then i else g.nodes[ns[|ns| - 1]].next
  }

  lemma InListMore(g: Grammar, i: int, ns: seq<int>)
    requires g.Has(i) && (g.nodes[i].Primary? || g.nodes[i].Sequence?) && InList(g, g.nodes[i].next, ns)
    ensures InList(g, i, [i] + ns) && Behind(g, i, [i] + ns) == Behind(g, g.nodes[i].next, ns)
  {
    var ms := [i] + ns;
    forall k | 0 <= k < |ms|
      ensures g.Has(ms[k]) && (g.nodes[ms[k]].Primary? || g.nodes[ms[k]].Sequence?)
      ensures ms[k] == if k == 0 then i else g.nodes[ms[k - 1]].next
    {
      if k > 0 { assert ms[k] == ns[k - 1] && (k > 1 ==> ms[k - 1] == ns[k - 2]); }
    }
  }

  /** A choice takes the first of its sequences that matches, at the place of the choice, and fails if none does. */
  lemma {:induction false} ChoiceIs(g: Grammar, a: Analysis, s: Input, i: int, pos: nat) returns (ns: seq<int>)
    requires Good(g, a) && SeqIdx(g, i) && pos <= |s|
    ensures InList(g, i, ns) && SeqIdx(g, Behind(g, i, ns))
    ensures forall k :: 0 <= k < |ns| ==>
      g.nodes[ns[k]].Sequence? && PrimIdx(g, g.nodes[ns[k]].pri) && Rest(g, a, s, g.nodes[ns[k]].pri, pos).Fail?
    ensures var r, j := Choice(g, a, s, i, pos), Behind(g, i, ns);
            if j < 0 then r.Fail? else
              PrimIdx(g, g.nodes[j].pri) && r.Ok? && Rest(g, a, s, g.nodes[j].pri, pos).Ok? && r.end == Rest(g, a, s, g.nodes[j].pri, pos).end
    decreases if i < 0 then 0 else a.rank[i] + 1
  {
    ns := [];
    if i >= 0 {
      assert NodeOk(g, a, i);
      if Rest(g, a, s, g.nodes[i].pri, pos).Fail? {
        var ms := ChoiceIs(g, a, s, g.nodes[i].next, pos);
        InListMore(g, i, ms);
        ns := [i] + ms;
      }
    }
  }

  /** The primaries from `i` on match from each of these places up to the next one; `j` is the one that is next at the last place. */
  predicate Runs(g: Grammar, a: Analysis, s: Input, i: int, ps: seq<nat>, j: int)
    requires Good(g, a)
    decreases |ps|
  {
    && ps != [] && ps[0] <= |s| && PrimIdx(g, i)
    && if |ps| == 1 then j == i else
         i >= 0 && (var r := Prim(g, a, s, i, ps[0]); r.Ok? && r.end == ps[1] && Runs(g, a, s, g.nodes[i].next, ps[1..], j))
  }

  /** A sequence matches when each of its primaries does where the one before has ended; it ends with the last one. */
  lemma {:induction false} RestIs(g: Grammar, a: Analysis, s: Input, i: int, pos: nat) returns (ps: seq<nat>, j: int)
    requires Good(g, a) && PrimIdx(g, i) && pos <= |s|
    ensures Runs(g, a, s, i, ps, j) && ps[0] == pos && ps[|ps| - 1] <= |s| && PrimIdx(g, j)
    ensures var r, last := Rest(g, a, s, i, pos), ps[|ps| - 1];
            if j < 0 then r.Ok? && r.end == last else r.Fail? && Prim(g, a, s, j, last).Fail?
    decreases |s| - pos, if i < 0 then 0 else a.rank[i] + 1
  {
    ps, j := [pos], i;
    if i >= 0 {
      assert NodeOk(g, a, i);
      hide Within;
      PrimWithin(g, a, s, i, pos);
      var r := Prim(g, a, s, i, pos);
      if r.Ok? {
        var qs;
        qs, j := RestIs(g, a, s, g.nodes[i].next, r.end);
        ps := [pos] + qs;
        assert ps[1..] == qs;
      }
    }
  }

  lemma PrimWithin(g: Grammar, a: Analysis, s: Input, i: int, pos: nat)
    requires Good(g, a) && g.Has(i) && g.nodes[i].Primary? && pos <= |s|
    ensures var r := Prim(g, a, s, i, pos); r.Ok? ==> pos <= r.end <= |s| && (r.end == pos ==> i in a.prim)
  {
  }

  /** A lookahead does not move; `&` matches where what is behind it does, and `!` where that does not. */
  lemma LookaheadIs(g: Grammar, a: Analysis, s: Input, i: int, pos: nat)
    requires Good(g, a) && g.Has(i) && g.nodes[i].Primary? && g.nodes[i].prefix != None && pos <= |s|
    ensures var n, r := g.nodes[i], Prim(g, a, s, i, pos);
            && (r.Ok? ==> r.end == pos)
            && (n.suffix == Question || n.suffix == Star ==> (r.Ok? <==> n.prefix == And))
            && (n.suffix != Question && n.suffix != Star ==> (r.Ok? <==> (n.prefix == And <==> Refer(g, a, s, i, pos).Ok?)))
  {
    assert NodeOk(g, a, i);
  }

  // ----- the rules of ordered choice, for any grammar -----

  /** What is to be matched: an expression, the rest of a sequence, a primary, its repetition, or what it refers to. */
  datatype Goal = OfChoice(i: int) | OfRest(i: int) | OfPrim(i: int) | OfMany(i: int) | OfMatch(i: int)

  /** A derivation by the rules, with the outcomes of its premises. */
  datatype Proof = Axiom | One(p: Proof, r: Out) | Two(p: Proof, r: Out, q: Proof, t: Out)

  /** `d` derives that the goal has the outcome `out` at `pos`. */
  predicate Derives(g: Grammar, s: Input, goal: Goal, pos: nat, out: Out, d: Proof)
    decreases d
  {
    pos <= |s| &&
    match goal
    case OfChoice(i) =>
      if i < 0 then d == Axiom && out == Fail(false)
      else
        && g.Has(i) && g.nodes[i].Sequence?
        && (match d
            case Axiom => false
            case One(p, r) => r.Ok? && out == r && Derives(g, s, OfRest(g.nodes[i].pri), pos, r, p)
            case Two(p, r, q, t) =>
              && r.Fail? && out == t.Seen(r.seen)
              && Derives(g, s, OfRest(g.nodes[i].pri), pos, r, p) && Derives(g, s, OfChoice(g.nodes[i].next), pos, t, q))
    case OfRest(i) =>
      if i < 0 then d == Axiom && out == Ok(pos, false)
      else
        && g.Has(i) && g.nodes[i].Primary?
        && (match d
            case Axiom => false
            case One(p, r) => r.Fail? && out == r && Derives(g, s, OfPrim(i), pos, r, p)
            case Two(p, r, q, t) =>
              && r.Ok? && r.end <= |s| && out == t.Seen(r.seen)
              && Derives(g, s, OfPrim(i), pos, r, p) && Derives(g, s, OfRest(g.nodes[i].next), r.end, t, q))
    case OfPrim(i) =>
      && g.Has(i) && g.nodes[i].Primary?
      && (var n := g.nodes[i];
          match d
          case Axiom => false
          case One(p, r) =>
            (match n.suffix
             case Star => out == Prefixed(n.prefix, r, pos) && Derives(g, s, OfMany(i), pos, r, p)
             case Plus => r.Fail? && out == Prefixed(n.prefix, r, pos) && Derives(g, s, OfMatch(n.match_), pos, r, p)
             case Question =>
               out == Prefixed(n.prefix, if r.Ok? then r else Ok(pos, r.seen), pos) && Derives(g, s, OfMatch(n.match_), pos, r, p)
             case _ => out == Prefixed(n.prefix, r, pos) && Derives(g, s, OfMatch(n.match_), pos, r, p))
          case Two(p, r, q, t) =>
            && n.suffix == Plus && r.Ok? && r.end <= |s| && out == Prefixed(n.prefix, t.Seen(r.seen), pos)
            && Derives(g, s, OfMatch(n.match_), pos, r, p) && Derives(g, s, OfMany(i), r.end, t, q))
    case OfMany(i) =>
      && g.Has(i) && g.nodes[i].Primary?
      && (match d
          case Axiom => false
          case One(p, r) => r.Fail? && out == Ok(pos, r.seen) && Derives(g, s, OfMatch(g.nodes[i].match_), pos, r, p)
          case Two(p, r, q, t) =>
            && r.Ok? && r.end <= |s| && out == t.Seen(r.seen)
            && Derives(g, s, OfMatch(g.nodes[i].match_), pos, r, p) && Derives(g, s, OfMany(i), r.end, t, q))
    case OfMatch(i) =>
      g.Has(i) &&
      match g.nodes[i]
      case Sequence(_, _) => d.One? && out == d.r && Derives(g, s, OfChoice(i), pos, d.r, d.p)
      case Identifier(def) =>
        if g.IsToken(def) then d == Axiom && out == OneChar(s, {-def}, pos)
        else g.Has(def) && g.nodes[def].Definition? && d.One? && out == d.r && Derives(g, s, OfChoice(g.nodes[def].expr), pos, d.r, d.p)
      case Literal(value) => d == Axiom && out == Chars(s, value, pos)
      case Class(cset) => d == Axiom && out == OneChar(s, cset, pos)
      case Definition(_) => false
      case Primary(_, _, _, _) => false
  }

  /** No two derivations disagree, whatever the grammar. */
  lemma {:induction false} OneOutcome(g: Grammar, s: Input, goal: Goal, pos: nat, out: Out, d: Proof, out2: Out, d2: Proof)
    requires Derives(g, s, goal, pos, out, d) && Derives(g, s, goal, pos, out2, d2)
    ensures out == out2
    decreases d
  {
    match goal {
      case OfChoice(i) =>
        if i >= 0 {
          OneOutcome(g, s, OfRest(g.nodes[i].pri), pos, d.r, d.p, d2.r, d2.p);
          if d.Two? { OneOutcome(g, s, OfChoice(g.nodes[i].next), pos, d.t, d.q, d2.t, d2.q); }
        }
      case OfRest(i) =>
        if i >= 0 {
          OneOutcome(g, s, OfPrim(i), pos, d.r, d.p, d2.r, d2.p);
          if d.Two? { OneOutcome(g, s, OfRest(g.nodes[i].next), d.r.end, d.t, d.q, d2.t, d2.q); }
        }
      case OfPrim(i) =>
        if g.nodes[i].suffix == Star {
          OneOutcome(g, s, OfMany(i), pos, d.r, d.p, d2.r, d2.p);
        } else {
          OneOutcome(g, s, OfMatch(g.nodes[i].match_), pos, d.r, d.p, d2.r, d2.p);
          if d.Two? { OneOutcome(g, s, OfMany(i), d.r.end, d.t, d.q, d2.t, d2.q); }
        }
      case OfMany(i) =>
        OneOutcome(g, s, OfMatch(g.nodes[i].match_), pos, d.r, d.p, d2.r, d2.p);
        if d.Two? { OneOutcome(g, s, OfMany(i), d.r.end, d.t, d.q, d2.t, d2.q); }
      case OfMatch(i) =>
        if g.nodes[i].Sequence? {
          OneOutcome(g, s, OfChoice(i), pos, d.r, d.p, d2.r, d2.p);
        } else if g.nodes[i].Identifier? && !g.IsToken(g.nodes[i].def) {
          OneOutcome(g, s, OfChoice(g.nodes[g.nodes[i].def].expr), pos, d.r, d.p, d2.r, d2.p);
        }
    }
  }

  /** With an analysis there is always one: the outcome that the functions above compute. */
  lemma {:induction false} DerivesChoice(g: Grammar, a: Analysis, s: Input, i: int, pos: nat) returns (d: Proof)
    requires Good(g, a) && SeqIdx(g, i) && pos <= |s|
    ensures Derives(g, s, OfChoice(i), pos, Choice(g, a, s, i, pos), d)
    decreases |s| - pos, if i < 0 then 0 else a.rank[i] + 1, 4
  {
    if i < 0 {
      d := Axiom;
    } else {
      assert NodeOk(g, a, i);
      var r := Rest(g, a, s, g.nodes[i].pri, pos);
      var p := DerivesRest(g, a, s, g.nodes[i].pri, pos);
      if r.Ok? {
        d := One(p, r);
      } else {
        var q := DerivesChoice(g, a, s, g.nodes[i].next, pos);
        d := Two(p, r, q, Choice(g, a, s, g.nodes[i].next, pos));
      }
    }
  }

  lemma {:induction false} DerivesRest(g: Grammar, a: Analysis, s: Input, i: int, pos: nat) returns (d: Proof)
    requires Good(g, a) && PrimIdx(g, i) && pos <= |s|
    ensures Derives(g, s, OfRest(i), pos, Rest(g, a, s, i, pos), d)
    decreases |s| - pos, if i < 0 then 0 else a.rank[i] + 1, 3
  {
    if i < 0 {
      d := Axiom;
    } else {
      assert NodeOk(g, a, i);
      var r := Prim(g, a, s, i, pos);
      var p := DerivesPrim(g, a, s, i, pos);
      if r.Ok? {
        var q := DerivesRest(g, a, s, g.nodes[i].next, r.end);
        d := Two(p, r, q, Rest(g, a, s, g.nodes[i].next, r.end));
      } else {
        d := One(p, r);
      }
    }
  }

  lemma {:induction false} DerivesPrim(g: Grammar, a: Analysis, s: Input, i: int, pos: nat) returns (d: Proof)
    requires Good(g, a) && g.Has(i) && g.nodes[i].Primary? && pos <= |s|
    ensures Derives(g, s, OfPrim(i), pos, Prim(g, a, s, i, pos), d)
    decreases |s| - pos, a.rank[i] + 1, 2
  {
    assert NodeOk(g, a, i);
    var n := g.nodes[i];
    if n.suffix == Star {
      var p := DerivesMany(g, a, s, i, pos);
      d := One(p, Many(g, a, s, i, pos));
    } else {
      var m := Match(g, a, s, n.match_, pos);
      var p := DerivesMatch(g, a, s, n.match_, pos);
      if n.suffix == Plus && m.Ok? {
        var q := DerivesMany(g, a, s, i, m.end);
        d := Two(p, m, q, Many(g, a, s, i, m.end));
      } else {
        d := One(p, m);
      }
    }
  }

  lemma {:induction false} DerivesMany(g: Grammar, a: Analysis, s: Input, i: int, pos: nat) returns (d: Proof)
    requires Good(g, a) && g.Has(i) && g.nodes[i].Primary? && pos <= |s|
    requires g.nodes[i].suffix == Star || g.nodes[i].suffix == Plus
    ensures Derives(g, s, OfMany(i), pos, Many(g, a, s, i, pos), d)
    decreases |s| - pos, a.rank[i] + 1, 1
  {
    assert NodeOk(g, a, i);
    var m := Match(g, a, s, g.nodes[i].match_, pos);
    var p := DerivesMatch(g, a, s, g.nodes[i].match_, pos);
    if m.Ok? {
      var q := DerivesMany(g, a, s, i, m.end);
      d := Two(p, m, q, Many(g, a, s, i, m.end));
    } else {
      d := One(p, m);
    }
  }

  lemma {:induction false} DerivesMatch(g: Grammar, a: Analysis, s: Input, i: int, pos: nat) returns (d: Proof)
    requires Good(g, a) && g.Has(i) && !g.nodes[i].Definition? && !g.nodes[i].Primary? && pos <= |s|
    ensures Derives(g, s, OfMatch(i), pos, Match(g, a, s, i, pos), d)
    decreases |s| - pos, a.rank[i] + 1, 5
  {
    assert NodeOk(g, a, i);
    d := Axiom;
    match g.nodes[i] {
      case Sequence(_, _) =>
        var p := DerivesChoice(g, a, s, i, pos);
        d := One(p, Choice(g, a, s, i, pos));
      case Identifier(def) =>
        if !g.IsToken(def) {
          var e := g.nodes[def].expr;
          var p := DerivesChoice(g, a, s, e, pos);
          d := One(p, Choice(g, a, s, e, pos));
        }
      case _ =>
    }
  }
}
