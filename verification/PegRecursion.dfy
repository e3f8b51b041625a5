/**
 * Left recursion and repetition without progress, read off a grammar: which parts of it can match without moving, and
 * which nodes are tried at the same place. Matching always ends on the grammars that are free of both.
 */
module PegRecursion {
  import opened LeastSets
  import opened PegGrammar

  /** The indices of every node lead where cpg_match_* take them to lead. */
  predicate NodeFormed(g: Grammar, i: int)
    requires g.Has(i)
  {
    match g.nodes[i]
    case Definition(expr) => SeqIdx(g, expr)
    case Sequence(pri, next) => PrimIdx(g, pri) && SeqIdx(g, next)
    case Primary(m, prefix, suffix, next) =>
      && g.Has(m) && !g.nodes[m].Definition? && !g.nodes[m].Primary? && PrimIdx(g, next)
      && (prefix == None || prefix == And || prefix == Not) && suffix != And && suffix != Not
    case Identifier(def) => g.IsToken(def) || DefIdx(g, def)
    case Literal(_) => true
    case Class(_) => true
  }

  predicate WellFormed(g: Grammar) {
    forall i {:trigger NodeFormed(g, i)} :: 0 <= i < |g.nodes| ==> NodeFormed(g, i)
  }

  // ----- what can match without moving -----

  function Goals(g: Grammar): (r: set<Goal>)
    ensures forall i :: g.Has(i) ==> OfChoice(i) in r && OfRest(i) in r && OfPrim(i) in r && OfMatch(i) in r
  {
    var all := set i | 0 <= i < |g.nodes| && g.Has(i);
    (set i | i in all :: OfChoice(i)) + (set i | i in all :: OfRest(i)) + (set i | i in all :: OfPrim(i)) + (set i | i in all :: OfMatch(i))
  }

  /** The goal can match without moving if those in `n` can. A primary with a prefix never moves; it counts as one that can match. */
  predicate CanStay(g: Grammar, n: set<Goal>, goal: Goal) {
    match goal
    case OfChoice(i) =>
      g.Has(i) && g.nodes[i].Sequence? && (g.nodes[i].pri < 0 || OfRest(g.nodes[i].pri) in n || OfChoice(g.nodes[i].next) in n)
    case OfRest(i) => g.Has(i) && g.nodes[i].Primary? && OfPrim(i) in n && (g.nodes[i].next < 0 || OfRest(g.nodes[i].next) in n)
    case OfPrim(i) =>
      g.Has(i) && g.nodes[i].Primary? &&
      (g.nodes[i].prefix != None || g.nodes[i].suffix == Question || g.nodes[i].suffix == Star || OfMatch(g.nodes[i].match_) in n)
    case OfMany(_) => false
    case OfMatch(i) =>
      g.Has(i) &&
      match g.nodes[i]
      case Sequence(_, _) => OfChoice(i) in n
      case Identifier(def) => !g.IsToken(def) && g.Has(def) && g.nodes[def].Definition? && OfChoice(g.nodes[def].expr) in n
      case Literal(value) => value == []
      case _ => false
  }

  function Nullable(g: Grammar): (r: set<Goal>)
    ensures r <= Goals(g)
  {
    Least(Goals(g), (n, goal) => CanStay(g, n, goal))
  }

  /** Being nullable is what CanStay says it is. */
  lemma NullableIs(g: Grammar, goal: Goal)
    requires goal in Goals(g) && CanStay(g, Nullable(g), goal)
    ensures goal in Nullable(g)
  {
  }

  // ----- what is tried at the same place -----

  /** While node `i` is tried at some place, node `j` may be tried there. */
  predicate Tried(g: Grammar, i: int, j: int) {
    && g.Has(i) && g.Has(j)
    && match g.nodes[i]
       case Definition(_) => false
       case Sequence(pri, next) => j == pri || j == next
       case Primary(m, _, _, next) => j == m || (j == next && OfPrim(i) in Nullable(g))
       case Identifier(def) => !g.IsToken(def) && g.Has(def) && g.nodes[def].Definition? && j == g.nodes[def].expr
       case Literal(_) => false
       case Class(_) => false
  }

  /** Each node of the path may be tried where the one before it is. */
  ghost predicate Path(g: Grammar, p: seq<int>) {
    forall k :: 0 <= k < |p| - 1 ==> Tried(g, p[k], p[k + 1])
  }

  /** No node is tried again at the place where it is being tried. */
  ghost predicate NoLeftRecursion(g: Grammar) {
    forall p :: Path(g, p) && 2 <= |p| ==> p[0] != p[|p| - 1]
  }

  /** Nothing that can match without moving is repeated. */
  predicate NoNullableStar(g: Grammar) {
    forall i :: 0 <= i < |g.nodes| && g.nodes[i].Primary? && (g.nodes[i].suffix == Star || g.nodes[i].suffix == Plus) ==>
      OfMatch(g.nodes[i].match_) !in Nullable(g)
  }

  /** The grammars on which matching always ends. */
  ghost predicate Ends(g: Grammar) {
    WellFormed(g) && NoLeftRecursion(g) && NoNullableStar(g)
  }

  // ----- from an analysis to the absence of left recursion -----

  /** What the analysis says of the goal. */
  predicate Says(g: Grammar, a: Analysis, goal: Goal) {
    match goal
    case OfChoice(i) => ExprNull(a, i)
    case OfRest(i) => RestNull(a, i)
    case OfPrim(i) => i in a.prim
    case OfMany(i) => true
    case OfMatch(i) => MatchNull(g, a, i)
  }

  lemma SaysStay(g: Grammar, a: Analysis, n: set<Goal>, goal: Goal)
    requires Good(g, a) && CanStay(g, n, goal) && forall y :: y in n ==> Says(g, a, y)
    ensures Says(g, a, goal)
  {
    match goal
    case OfChoice(i) => assert NodeOk(g, a, i); if g.nodes[i].pri >= 0 && OfRest(g.nodes[i].pri) in n { assert Says(g, a, OfRest(g.nodes[i].pri)); }
      if OfChoice(g.nodes[i].next) in n { assert Says(g, a, OfChoice(g.nodes[i].next)); }
    case OfRest(i) => assert NodeOk(g, a, i); assert Says(g, a, OfPrim(i));
      if g.nodes[i].next >= 0 { assert Says(g, a, OfRest(g.nodes[i].next)); }
    case OfPrim(i) => assert NodeOk(g, a, i); if OfMatch(g.nodes[i].match_) in n { assert Says(g, a, OfMatch(g.nodes[i].match_)); }
    case OfMany(_) =>
    case OfMatch(i) =>
      if g.nodes[i].Sequence? { assert Says(g, a, OfChoice(i)); }
      if g.nodes[i].Identifier? { assert Says(g, a, OfChoice(g.nodes[g.nodes[i].def].expr)); }
  }

  /** An analysis finds all that can match without moving. */
  lemma FindsNullable(g: Grammar, a: Analysis, goal: Goal)
    requires Good(g, a) && goal in Nullable(g)
    ensures Says(g, a, goal)
  {
    var rule, holds := (n, x) => CanStay(g, n, x), x => Says(g, a, x);
    forall n, x | n <= Goals(g) && x in Goals(g) && rule(n, x) && (forall y :: y in n ==> holds(y))
      ensures holds(x)
    {
      SaysStay(g, a, n, x);
    }
    LeastHolds(Goals(g), rule, holds);
  }

  lemma RankFalls(g: Grammar, a: Analysis, i: int, j: int)
    requires Good(g, a) && Tried(g, i, j)
    ensures a.rank[j] < a.rank[i]
  {
    assert NodeOk(g, a, i);
    if OfPrim(i) in Nullable(g) { FindsNullable(g, a, OfPrim(i)); }
  }

  lemma {:induction false} RankFallsAlong(g: Grammar, a: Analysis, p: seq<int>)
    requires Good(g, a) && Path(g, p) && 2 <= |p|
    ensures g.Has(p[0]) && g.Has(p[|p| - 1]) && a.rank[p[|p| - 1]] < a.rank[p[0]]
  {
    var q := p[..|p| - 1];
    RankFalls(g, a, p[|p| - 2], p[|p| - 1]);
    if |q| >= 2 {
      assert Path(g, q);
      RankFallsAlong(g, a, q);
    }
  }

  lemma AnalysisEnds(g: Grammar, a: Analysis)
    requires Good(g, a)
    ensures Ends(g)
  {
    forall i | 0 <= i < |g.nodes|
      ensures NodeFormed(g, i)
      ensures g.nodes[i].Primary? && (g.nodes[i].suffix == Star || g.nodes[i].suffix == Plus) ==> OfMatch(g.nodes[i].match_) !in Nullable(g)
    {
      assert NodeOk(g, a, i);
      if g.nodes[i].Primary? && OfMatch(g.nodes[i].match_) in Nullable(g) { FindsNullable(g, a, OfMatch(g.nodes[i].match_)); }
    }
    forall p | Path(g, p) && 2 <= |p|
      ensures p[0] != p[|p| - 1]
    {
      RankFallsAlong(g, a, p);
    }
  }

  // ----- and back -----

  ghost predicate NoRepeats(p: seq<int>) {
    forall i, j :: 0 <= i < j < |p| ==> p[i] != p[j]
  }

  lemma {:induction false} NoLonger(p: seq<int>, s: set<int>)
    requires NoRepeats(p) && forall k :: 0 <= k < |p| ==> p[k] in s
    ensures |p| <= |s|
  {
    if p != [] {
      var q := p[..|p| - 1];
      NoLonger(q, s - {p[|p| - 1]});
    }
  }

  /** Without left recursion a set of nodes has one from which no other of the set is tried. */
  lemma {:induction false} Sink(g: Grammar, s: set<int>, p: seq<int>) returns (x: int)
    requires NoLeftRecursion(g) && Path(g, p) && p != [] && NoRepeats(p) && forall k :: 0 <= k < |p| ==> p[k] in s
    ensures x in s && forall y :: y in s ==> !Tried(g, x, y)
    decreases |s| - |p|
  {
    NoLonger(p, s);
    x := p[|p| - 1];
    if y :| y in s && Tried(g, x, y) {
      var q := p + [y];
      assert Path(g, q);
      forall k | 0 <= k < |p|
        ensures p[k] != y
      {
        var c := q[k..];
        assert Path(g, c) && c[|c| - 1] == y && c[0] == p[k];
      }
      NoLonger(q, s);
      x := Sink(g, s, q);
    }
  }

  /** Ranks that fall from a node to those tried at its place. */
  lemma {:induction false} Ranks(g: Grammar, s: set<nat>) returns (rank: map<int, nat>)
    requires NoLeftRecursion(g)
    ensures rank.Keys == s && forall i, j :: i in s && j in s && Tried(g, i, j) ==> rank[j] < rank[i]
    decreases |s|
  {
    hide Tried;
    rank := map[];
    if s != {} {
      var start :| start in s;
      var x := Sink(g, s, [start]);
      var r := Ranks(g, s - {x});
      rank := map i | i in s :: if i == x then 0 else r[i] + 1;
    }
  }

  lemma EndsAnalysis(g: Grammar) returns (a: Analysis)
    requires Ends(g)
    ensures Good(g, a)
  {
    var all := set i | 0 <= i < |g.nodes| && g.Has(i);
    var rank := Ranks(g, all);
    var still := Nullable(g);
    a := Analysis(seq(|g.nodes|, i requires i in rank => rank[i]),
      set i | i in all && OfChoice(i) in still, set i | i in all && OfRest(i) in still, set i | i in all && OfPrim(i) in still);
    forall i | g.Has(i)
      ensures NodeOk(g, a, i)
    {
      RightAbout(g, a, rank, i);
    }
  }

  lemma RightAbout(g: Grammar, a: Analysis, rank: map<int, nat>, i: int)
    requires Ends(g) && g.Has(i) && |a.rank| == |g.nodes|
    requires forall k :: g.Has(k) ==> k in rank && a.rank[k] == rank[k]
    requires forall k, j :: g.Has(k) && g.Has(j) && Tried(g, k, j) ==> rank[j] < rank[k]
    requires forall k :: k in a.expr <==> g.Has(k) && OfChoice(k) in Nullable(g)
    requires forall k :: k in a.rest <==> g.Has(k) && OfRest(k) in Nullable(g)
    requires forall k :: k in a.prim <==> g.Has(k) && OfPrim(k) in Nullable(g)
    ensures NodeOk(g, a, i)
  {
    assert NodeFormed(g, i);
    var still := Nullable(g);
    match g.nodes[i]
    case Sequence(pri, next) =>
      if pri >= 0 { assert Tried(g, i, pri); }
      if next >= 0 { assert Tried(g, i, next); }
      if RestNull(a, pri) || ExprNull(a, next) { NullableIs(g, OfChoice(i)); }
    case Primary(m, prefix, suffix, next) =>
      assert Tried(g, i, m);
      if MatchNull(g, a, m) {
        assert OfMatch(m) in still by { NullableIs(g, OfMatch(m)); }
      }
      if prefix != None || suffix == Question || suffix == Star || MatchNull(g, a, m) { NullableIs(g, OfPrim(i)); }
      if i in a.prim && RestNull(a, next) { NullableIs(g, OfRest(i)); }
      if i in a.prim && next >= 0 { assert Tried(g, i, next); }
    case Identifier(def) =>
      if !g.IsToken(def) && g.nodes[def].expr >= 0 { assert Tried(g, i, g.nodes[def].expr); }
    case _ =>
  }

  /** The grammars on which the recogniser is proved to end are those without left recursion and without nullable repetitions. */
  lemma HasAnalysis(g: Grammar)
    ensures (exists a :: Good(g, a)) <==> WellFormed(g) && NoLeftRecursion(g) && NoNullableStar(g)
  {
    if a :| Good(g, a) { AnalysisEnds(g, a); }
    if Ends(g) { var a := EndsAnalysis(g); }
  }

  ghost function AnalysisOf(g: Grammar): (a: Analysis)
    requires Ends(g)
    ensures Good(g, a)
  {
    HasAnalysis(g);
    var a :| Good(g, a);
    a
  }

  // ----- so the recogniser has one outcome -----

  /** The outcome of what a primary refers to, whatever the analysis. */
  ghost function Outcome(g: Grammar, s: Input, i: int, pos: nat): (r: Out)
    requires Ends(g) && g.Has(i) && !g.nodes[i].Definition? && !g.nodes[i].Primary? && pos <= |s|
  {
    Match(g, AnalysisOf(g), s, i, pos)
  }

  /**
   * On a grammar without left recursion and nullable repetitions everything that a primary can refer to has an outcome at
   * every place of every input by the rules of ordered choice, and no other one.
   */
  lemma OutcomeIs(g: Grammar, s: Input, i: int, pos: nat, out: Out)
    requires Ends(g) && g.Has(i) && !g.nodes[i].Definition? && !g.nodes[i].Primary? && pos <= |s|
    ensures (exists d :: Derives(g, s, OfMatch(i), pos, out, d)) <==> out == Outcome(g, s, i, pos)
  {
    hide Ends, Derives;
    var a := AnalysisOf(g);
    var e := DerivesMatch(g, a, s, i, pos);
    if out == Outcome(g, s, i, pos) { assert Derives(g, s, OfMatch(i), pos, out, e); }
    if d :| Derives(g, s, OfMatch(i), pos, out, d) {
      OneOutcome(g, s, OfMatch(i), pos, out, d, Match(g, a, s, i, pos), e);
    }
  }
}
