/**
 * Which grammars make the recogniser of src/cpg.c look past the end of what it takes: cpg_parse reports success only when
 * that has happened.
 */
module PegEnd {
  import opened LeastSets
  import opened PegGrammar
  import opened PegRecursion

  /** What cpg_parse makes of an outcome on an input of `n` characters. */
  function Verdict(r: Out, n: nat): int {
    if r.Ok? then (if r.seen && r.end == n then 1 else -1) else (if r.seen && n == 0 then 0 else -1)
  }

  // ----- grammars that always look -----

  /**
   * Of a goal: when it succeeds and ends at the end of the input, it has looked past it; the same, if it has moved; when it
   * fails at the end of the input, it has looked past it.
   */
  datatype Claim = Looks(goal: Goal) | Moves(goal: Goal) | Fails(goal: Goal)

  function Claims(g: Grammar): (r: set<Claim>)
    ensures forall goal :: goal in Goals(g) ==> Looks(goal) in r && Moves(goal) in r && Fails(goal) in r
    ensures forall i :: g.Has(i) ==> Looks(OfMany(i)) in r && Moves(OfMany(i)) in r && Fails(OfMany(i)) in r
  {
    var all := Goals(g) + set i | 0 <= i < |g.nodes| && g.Has(i) :: OfMany(i);
    (set x | x in all :: Looks(x)) + (set x | x in all :: Moves(x)) + (set x | x in all :: Fails(x))
  }

  /** The claim stands when those in `n` are in doubt. The end of a sequence stays and sees nothing, the end of a choice fails so. */
  predicate Stands(n: set<Claim>, c: Claim) {
    && c !in n
    && (c.Looks? && c.goal.OfRest? ==> c.goal.i >= 0)
    && (c.Fails? && c.goal.OfChoice? ==> c.goal.i >= 0)
  }

  /** Of a primary without its prefix. */
  predicate BareBacked(n: set<Claim>, c: Claim, i: int, m: Goal, suffix: Attr) {
    var again := OfMany(i);
    match suffix
    case Question => if c.Looks? then Stands(n, Looks(m)) && Stands(n, Fails(m)) else c.Moves? ==> Stands(n, Moves(m))
    case Star => if c.Looks? then Stands(n, Looks(again)) else c.Moves? ==> Stands(n, Moves(again))
    case Plus =>
      if c.Looks? then Stands(n, Looks(again)) || (Stands(n, Looks(m)) && Stands(n, Moves(again)))
      else if c.Moves? then Stands(n, Looks(again)) || (Stands(n, Moves(m)) && Stands(n, Moves(again)))
      else Stands(n, Fails(m))
    case _ => Stands(n, c.(goal := m))
  }

  /** The claim follows from those that stand. */
  predicate Backed(g: Grammar, n: set<Claim>, c: Claim) {
    g.Has(c.goal.i) ==>
    match c.goal
    case OfChoice(i) =>
      g.nodes[i].Sequence? ==>
        (var first, more := Stands(n, c.(goal := OfRest(g.nodes[i].pri))), Stands(n, c.(goal := OfChoice(g.nodes[i].next)));
         if c.Fails? then first || more else first && more)
    case OfRest(i) =>
      g.nodes[i].Primary? ==>
        (var first, more := OfPrim(i), OfRest(g.nodes[i].next);
         if c.Fails? then Stands(n, Fails(first)) && (Stands(n, Looks(first)) || Stands(n, Fails(more)))
         else Stands(n, Looks(more)) || (Stands(n, c.(goal := first)) && Stands(n, Moves(more))))
    case OfPrim(i) =>
      g.nodes[i].Primary? ==>
        (var m, suffix := OfMatch(g.nodes[i].match_), g.nodes[i].suffix;
         match g.nodes[i].prefix
         case And => c.Moves? || BareBacked(n, c, i, m, suffix)
         case Not => c.Moves? || BareBacked(n, if c.Looks? then Fails(c.goal) else Looks(c.goal), i, m, suffix)
         case _ => BareBacked(n, c, i, m, suffix))
    case OfMany(i) =>
      g.nodes[i].Primary? ==>
        (var m := OfMatch(g.nodes[i].match_);
         c.Fails? || (if c.Looks? then Stands(n, Fails(m)) else Stands(n, Looks(c.goal)) || Stands(n, Moves(m))))
    case OfMatch(i) =>
      match g.nodes[i]
      case Sequence(_, _) => Stands(n, c.(goal := OfChoice(i)))
      case Identifier(def) =>
        if g.IsToken(def) then c.Fails?
        else g.Has(def) && g.nodes[def].Definition? ==> Stands(n, c.(goal := OfChoice(g.nodes[def].expr)))
      case Literal(value) => c.Fails? || (c.Moves? && value == [])
      case Class(cset) => c.Fails? || cset == {}
      case _ => true
  }

  /** The claims that nothing backs in the end. */
  function Doubtful(g: Grammar): (r: set<Claim>)
  {
    Least(Claims(g), (n, c) => !Backed(g, n, c))
  }

  lemma StandsBacked(g: Grammar, c: Claim)
    requires g.Has(c.goal.i) && Stands(Doubtful(g), c)
    ensures Backed(g, Doubtful(g), c)
  {
    assert c in Claims(g);
  }

  /** The start symbol always looks past the end when it takes the whole input. */
  predicate LooksPast(g: Grammar, start: int) {
    Looks(OfMatch(start)) !in Doubtful(g)
  }

  /** The claims about the goal that stand are true of an outcome. */
  predicate True(n: set<Claim>, goal: Goal, s: Input, pos: nat, out: Out) {
    && (out.Ok? ==> pos <= out.end <= |s|) && (goal.OfMany? ==> out.Ok?)
    && (out.Ok? && out.end == |s| && Stands(n, Looks(goal)) ==> out.seen)
    && (out.Ok? && pos < out.end == |s| && Stands(n, Moves(goal)) ==> out.seen)
    && (out.Fail? && pos == |s| && Stands(n, Fails(goal)) ==> out.seen)
  }

  /** What backs the claims about the goal that stand. */
  predicate AllBacked(g: Grammar, n: set<Claim>, goal: Goal) {
    && (Stands(n, Looks(goal)) ==> Backed(g, n, Looks(goal)))
    && (Stands(n, Moves(goal)) ==> Backed(g, n, Moves(goal)))
    && (Stands(n, Fails(goal)) ==> Backed(g, n, Fails(goal)))
  }

  lemma TrueOfChoice(g: Grammar, n: set<Claim>, s: Input, i: int, pos: nat, r: Out, t: Out)
    requires g.Has(i) && g.nodes[i].Sequence? && pos <= |s| && AllBacked(g, n, OfChoice(i)) && True(n, OfRest(g.nodes[i].pri), s, pos, r)
    ensures r.Ok? ==> True(n, OfChoice(i), s, pos, r)
    ensures r.Fail? && True(n, OfChoice(g.nodes[i].next), s, pos, t) ==> True(n, OfChoice(i), s, pos, t.Seen(r.seen))
  {
  }

  lemma TrueOfRest(g: Grammar, n: set<Claim>, s: Input, i: int, pos: nat, r: Out, t: Out)
    requires g.Has(i) && g.nodes[i].Primary? && pos <= |s| && AllBacked(g, n, OfRest(i)) && True(n, OfPrim(i), s, pos, r)
    ensures r.Fail? ==> True(n, OfRest(i), s, pos, r)
    ensures r.Ok? && True(n, OfRest(g.nodes[i].next), s, r.end, t) ==> True(n, OfRest(i), s, pos, t.Seen(r.seen))
  {
  }

  lemma TrueOfMany(g: Grammar, n: set<Claim>, s: Input, i: int, pos: nat, r: Out, t: Out)
    requires g.Has(i) && g.nodes[i].Primary? && pos <= |s| && AllBacked(g, n, OfMany(i)) && True(n, OfMatch(g.nodes[i].match_), s, pos, r)
    ensures r.Fail? ==> True(n, OfMany(i), s, pos, Ok(pos, r.seen))
    ensures r.Ok? && True(n, OfMany(i), s, r.end, t) ==> True(n, OfMany(i), s, pos, t.Seen(r.seen))
  {
  }

  /** The bare claims about a primary and the outcome of what stands behind its prefix. */
  predicate TrueBare(n: set<Claim>, i: int, m: Goal, suffix: Attr, s: Input, pos: nat, out: Out) {
    && (out.Ok? ==> pos <= out.end <= |s|)
    && (out.Ok? && out.end == |s| && BareBacked(n, Looks(OfPrim(i)), i, m, suffix) ==> out.seen)
    && (out.Ok? && pos < out.end == |s| && BareBacked(n, Moves(OfPrim(i)), i, m, suffix) ==> out.seen)
    && (out.Fail? && pos == |s| && BareBacked(n, Fails(OfPrim(i)), i, m, suffix) ==> out.seen)
  }

  lemma TrueOfStar(n: set<Claim>, i: int, m: Goal, s: Input, pos: nat, r: Out)
    requires pos <= |s| && True(n, OfMany(i), s, pos, r)
    ensures TrueBare(n, i, m, Star, s, pos, r)
  {
  }

  lemma TrueOfOne(n: set<Claim>, i: int, m: Goal, suffix: Attr, s: Input, pos: nat, r: Out)
    requires pos <= |s| && True(n, m, s, pos, r) && suffix != Star
    ensures suffix != Plus && suffix != Question ==> TrueBare(n, i, m, suffix, s, pos, r)
    ensures suffix == Question ==> TrueBare(n, i, m, suffix, s, pos, if r.Ok? then r else Ok(pos, r.seen))
    ensures suffix == Plus && r.Fail? ==> TrueBare(n, i, m, suffix, s, pos, r)
  {
  }

  lemma TrueOfPlus(n: set<Claim>, i: int, m: Goal, s: Input, pos: nat, r: Out, t: Out)
    requires pos <= |s| && True(n, m, s, pos, r) && r.Ok? && True(n, OfMany(i), s, r.end, t)
    ensures TrueBare(n, i, m, Plus, s, pos, t.Seen(r.seen))
  {
  }

  lemma TrueOfPrim(g: Grammar, n: set<Claim>, s: Input, i: int, pos: nat, r: Out)
    requires g.Has(i) && g.nodes[i].Primary? && pos <= |s| && AllBacked(g, n, OfPrim(i))
    requires TrueBare(n, i, OfMatch(g.nodes[i].match_), g.nodes[i].suffix, s, pos, r)
    ensures True(n, OfPrim(i), s, pos, Prefixed(g.nodes[i].prefix, r, pos))
  {
    hide Stands, BareBacked;
  }

  /** `out` is an outcome of what the primary refers to, if the claims about that are true. */
  predicate Refers(g: Grammar, n: set<Claim>, s: Input, i: int, pos: nat, out: Out)
    requires g.Has(i) && pos <= |s|
  {
    match g.nodes[i]
    case Sequence(_, _) => True(n, OfChoice(i), s, pos, out)
    case Identifier(def) =>
      if g.IsToken(def) then out == OneChar(s, {-def}, pos)
      else g.Has(def) && g.nodes[def].Definition? && True(n, OfChoice(g.nodes[def].expr), s, pos, out)
    case Literal(value) => out == Chars(s, value, pos)
    case Class(cset) => out == OneChar(s, cset, pos)
    case _ => false
  }

  lemma TrueOfMatch(g: Grammar, n: set<Claim>, s: Input, i: int, pos: nat, out: Out)
    requires g.Has(i) && pos <= |s| && AllBacked(g, n, OfMatch(i)) && Refers(g, n, s, i, pos, out)
    ensures True(n, OfMatch(i), s, pos, out)
  {
    if g.nodes[i].Literal? { CharsFail(s, g.nodes[i].value, pos); }
  }

  /** They are true of all that can be derived. */
  lemma {:induction false} TrueOfAll(g: Grammar, s: Input, goal: Goal, pos: nat, out: Out, d: Proof)
    requires Derives(g, s, goal, pos, out, d)
    ensures True(Doubtful(g), goal, s, pos, out)
    decreases d
  {
    hide Doubtful, AllBacked, TrueBare;
    var n := Doubtful(g);
    if g.Has(goal.i) { DoubtfulBacks(g, goal); }
    match goal {
      case OfChoice(i) =>
        if i >= 0 {
          TrueOfAll(g, s, OfRest(g.nodes[i].pri), pos, d.r, d.p);
          if d.Two? { TrueOfAll(g, s, OfChoice(g.nodes[i].next), pos, d.t, d.q); }
          TrueOfChoice(g, n, s, i, pos, d.r, if d.Two? then d.t else d.r);
        }
      case OfRest(i) =>
        if i >= 0 {
          TrueOfAll(g, s, OfPrim(i), pos, d.r, d.p);
          if d.Two? { TrueOfAll(g, s, OfRest(g.nodes[i].next), d.r.end, d.t, d.q); }
          TrueOfRest(g, n, s, i, pos, d.r, if d.Two? then d.t else d.r);
        }
      case OfPrim(i) =>
        TrueOfPrimary(g, s, i, pos, out, d);
      case OfMany(i) =>
        TrueOfAll(g, s, OfMatch(g.nodes[i].match_), pos, d.r, d.p);
        if d.Two? { TrueOfAll(g, s, OfMany(i), d.r.end, d.t, d.q); }
        TrueOfMany(g, n, s, i, pos, d.r, if d.Two? then d.t else d.r);
      case OfMatch(i) =>
        if g.nodes[i].Sequence? {
          TrueOfAll(g, s, OfChoice(i), pos, d.r, d.p);
        } else if g.nodes[i].Identifier? && !g.IsToken(g.nodes[i].def) {
          TrueOfAll(g, s, OfChoice(g.nodes[g.nodes[i].def].expr), pos, d.r, d.p);
        }
        TrueOfMatch(g, n, s, i, pos, out);
    }
  }

  lemma {:induction false} TrueOfPrimary(g: Grammar, s: Input, i: int, pos: nat, out: Out, d: Proof)
    requires Derives(g, s, OfPrim(i), pos, out, d)
    ensures True(Doubtful(g), OfPrim(i), s, pos, out)
    decreases d, 0
  {
    hide Doubtful, AllBacked, TrueBare, True;
    var n, m, suffix := Doubtful(g), OfMatch(g.nodes[i].match_), g.nodes[i].suffix;
    DoubtfulBacks(g, OfPrim(i));
    if suffix == Star {
      TrueOfAll(g, s, OfMany(i), pos, d.r, d.p);
      TrueOfStar(n, i, m, s, pos, d.r);
      TrueOfPrim(g, n, s, i, pos, d.r);
    } else {
      TrueOfAll(g, s, m, pos, d.r, d.p);
      TrueOfOne(n, i, m, suffix, s, pos, d.r);
      if d.Two? {
        TrueOfAll(g, s, OfMany(i), d.r.end, d.t, d.q);
        TrueOfPlus(n, i, m, s, pos, d.r, d.t);
        TrueOfPrim(g, n, s, i, pos, d.t.Seen(d.r.seen));
      } else {
        TrueOfPrim(g, n, s, i, pos, if suffix == Question && d.r.Fail? then Ok(pos, d.r.seen) else d.r);
      }
    }
  }

  lemma DoubtfulBacks(g: Grammar, goal: Goal)
    requires g.Has(goal.i)
    ensures AllBacked(g, Doubtful(g), goal)
  {
    hide Doubtful, Backed, Stands;
    if Stands(Doubtful(g), Looks(goal)) { StandsBacked(g, Looks(goal)); }
    if Stands(Doubtful(g), Moves(goal)) { StandsBacked(g, Moves(goal)); }
    if Stands(Doubtful(g), Fails(goal)) { StandsBacked(g, Fails(goal)); }
  }

  lemma CharsFail(s: Input, value: seq<int>, pos: nat)
    requires pos <= |s|
    ensures pos == |s| && Chars(s, value, pos).Fail? ==> Chars(s, value, pos).seen
  {
  }

  /** For such grammars cpg_parse reports success exactly for the inputs that match as a whole. */
  lemma LooksPastExact(g: Grammar, s: Input, start: int, out: Out, d: Proof)
    requires LooksPast(g, start) && Derives(g, s, OfMatch(start), 0, out, d)
    ensures Verdict(out, |s|) == 1 <==> out.Ok? && out.end == |s|
  {
    TrueOfAll(g, s, OfMatch(start), 0, out, d);
  }

  /** `S <- 'a' !.` */
  function EndMarked(dot: set<int>): Grammar {
    Grammar([Definition(2), Identifier(0), Sequence(3, -1), Primary(4, None, None, 5), Literal([97]), Primary(6, Not, None, -1), Class(dot)], 0)
  }

  predicate InEndMarked(c: Claim) {
    || c == Looks(OfMatch(1)) || c == Looks(OfChoice(2)) || c == Looks(OfRest(3)) || c == Looks(OfRest(5))
    || c == Looks(OfPrim(5)) || c == Fails(OfMatch(6)) || c == Looks(OfChoice(-1)) || c == Moves(OfRest(-1))
  }

  lemma EndMarkedBacks(dot: set<int>, n: set<Claim>, c: Claim)
    requires InEndMarked(c) && forall y :: y in n ==> !InEndMarked(y)
    ensures Backed(EndMarked(dot), n, c)
  {
    var g := EndMarked(dot);
    assert g.nodes[1] == Identifier(0) && g.nodes[2] == Sequence(3, -1) && g.nodes[3] == Primary(4, None, None, 5);
    assert g.nodes[5] == Primary(6, Not, None, -1) && g.nodes[6] == Class(dot) && g.nodes[0] == Definition(2);
    assert Looks(OfChoice(2)) !in n && Looks(OfRest(3)) !in n && Looks(OfRest(5)) !in n && Looks(OfPrim(5)) !in n;
    assert Fails(OfMatch(6)) !in n && Looks(OfChoice(-1)) !in n && Moves(OfRest(-1)) !in n;
    hide EndMarked;
  }

  /** A grammar with a mark for the end of the input always looks. */
  lemma EndMark(dot: set<int>)
    ensures LooksPast(EndMarked(dot), 1)
  {
    hide Backed, InEndMarked, EndMarked;
    var g := EndMarked(dot);
    var rule, holds := (n, c) => !Backed(g, n, c), c => !InEndMarked(c);
    forall n, c | n <= Claims(g) && c in Claims(g) && rule(n, c) && (forall y :: y in n ==> holds(y))
      ensures holds(c)
    {
      if InEndMarked(c) { EndMarkedBacks(dot, n, c); }
    }
    LeastHolds(Claims(g), rule, holds);
    assert InEndMarked(Looks(OfMatch(1))) by { EndMarkedHas(); }
  }

  lemma EndMarkedHas()
    ensures InEndMarked(Looks(OfMatch(1)))
  {
  }

  // ----- what it means not to have looked -----

  /** An outcome that has not seen the end of the input is the same whatever follows. */
  lemma {:induction false} SameOnMore(g: Grammar, s: Input, t: Input, goal: Goal, pos: nat, out: Out, d: Proof)
    requires Derives(g, s, goal, pos, out, d) && !out.seen
    ensures Derives(g, s + t, goal, pos, out, d)
    decreases d
  {
    match goal {
      case OfChoice(i) =>
        if i >= 0 {
          SameOnMore(g, s, t, OfRest(g.nodes[i].pri), pos, d.r, d.p);
          if d.Two? { SameOnMore(g, s, t, OfChoice(g.nodes[i].next), pos, d.t, d.q); }
        }
      case OfRest(i) =>
        if i >= 0 {
          SameOnMore(g, s, t, OfPrim(i), pos, d.r, d.p);
          if d.Two? { SameOnMore(g, s, t, OfRest(g.nodes[i].next), d.r.end, d.t, d.q); }
        }
      case OfPrim(i) =>
        if g.nodes[i].suffix == Star {
          SameOnMore(g, s, t, OfMany(i), pos, d.r, d.p);
        } else {
          SameOnMore(g, s, t, OfMatch(g.nodes[i].match_), pos, d.r, d.p);
          if d.Two? { SameOnMore(g, s, t, OfMany(i), d.r.end, d.t, d.q); }
        }
      case OfMany(i) =>
        SameOnMore(g, s, t, OfMatch(g.nodes[i].match_), pos, d.r, d.p);
        if d.Two? { SameOnMore(g, s, t, OfMany(i), d.r.end, d.t, d.q); }
      case OfMatch(i) =>
        if g.nodes[i].Sequence? {
          SameOnMore(g, s, t, OfChoice(i), pos, d.r, d.p);
        } else if g.nodes[i].Identifier? && !g.IsToken(g.nodes[i].def) {
          SameOnMore(g, s, t, OfChoice(g.nodes[g.nodes[i].def].expr), pos, d.r, d.p);
        } else if g.nodes[i].Literal? {
          SameChars(s, t, g.nodes[i].value, pos);
        }
    }
  }

  lemma {:induction false} SameChars(s: Input, t: Input, value: seq<int>, pos: nat)
    requires pos <= |s| && !Chars(s, value, pos).seen
    ensures Chars(s + t, value, pos) == Chars(s, value, pos)
    decreases |value|
  {
    if value != [] && s[pos] == value[0] { SameChars(s, t, value[1..], pos + 1); }
  }

  // ----- grammars that take some input without looking -----

  /** The goal takes a certain word without looking further, if those in `n` do. */
  predicate TakesWord(g: Grammar, n: set<Goal>, goal: Goal) {
    match goal
    case OfChoice(i) => g.Has(i) && g.nodes[i].Sequence? && (g.nodes[i].pri < 0 || OfRest(g.nodes[i].pri) in n)
    case OfRest(i) => g.Has(i) && g.nodes[i].Primary? && OfPrim(i) in n && (g.nodes[i].next < 0 || OfRest(g.nodes[i].next) in n)
    case OfPrim(i) =>
      g.Has(i) && g.nodes[i].Primary? && g.nodes[i].prefix == None && (g.nodes[i].suffix == None || g.nodes[i].suffix == Question) &&
      OfMatch(g.nodes[i].match_) in n
    case OfMany(_) => false
    case OfMatch(i) =>
      g.Has(i) &&
      match g.nodes[i]
      case Sequence(_, _) => OfChoice(i) in n
      case Identifier(def) => g.IsToken(def) || (g.Has(def) && g.nodes[def].Definition? && OfChoice(g.nodes[def].expr) in n)
      case Literal(_) => true
      case Class(cset) => exists c :: c in cset
      case _ => false
  }

  /** The start symbol takes some input without looking further. */
  predicate TakesBlindly(g: Grammar, start: int) {
    OfMatch(start) in Least(Goals(g), (n, goal) => TakesWord(g, n, goal))
  }

  /** The word is at `pos`. */
  predicate At(s: Input, pos: nat, w: Input) {
    pos + |w| <= |s| && s[pos..pos + |w|] == w
  }

  ghost predicate HasOutcome(g: Grammar, s: Input, goal: Goal, pos: nat, out: Out) {
    exists d :: Derives(g, s, goal, pos, out, d)
  }

  ghost predicate Blind(g: Grammar, goal: Goal, w: Input) {
    forall s, pos: nat :: At(s, pos, w) ==> HasOutcome(g, s, goal, pos, Ok(pos + |w|, false))
  }

  lemma BlindAt(g: Grammar, goal: Goal, w: Input, s: Input, pos: nat) returns (d: Proof)
    requires Blind(g, goal, w) && At(s, pos, w)
    ensures Derives(g, s, goal, pos, Ok(pos + |w|, false), d)
  {
    var out := Ok(pos + |w|, false);
    assert HasOutcome(g, s, goal, pos, out);
    d :| Derives(g, s, goal, pos, out, d);
  }

  ghost predicate HasBlind(g: Grammar, goal: Goal) {
    exists w :: Blind(g, goal, w)
  }

  lemma BlindChoice(g: Grammar, i: int, w: Input)
    requires g.Has(i) && g.nodes[i].Sequence? && Blind(g, OfRest(g.nodes[i].pri), w)
    ensures Blind(g, OfChoice(i), w)
  {
    forall s, pos: nat | At(s, pos, w)
      ensures HasOutcome(g, s, OfChoice(i), pos, Ok(pos + |w|, false))
    {
      var p := BlindAt(g, OfRest(g.nodes[i].pri), w, s, pos);
      assert Derives(g, s, OfChoice(i), pos, Ok(pos + |w|, false), One(p, Ok(pos + |w|, false)));
    }
  }

  lemma BlindNone(g: Grammar, i: int)
    requires i < 0
    ensures Blind(g, OfRest(i), [])
  {
    forall s, pos: nat | At(s, pos, [])
      ensures HasOutcome(g, s, OfRest(i), pos, Ok(pos, false))
    {
      assert Derives(g, s, OfRest(i), pos, Ok(pos, false), Axiom);
    }
  }

  lemma BlindRest(g: Grammar, i: int, w: Input, v: Input)
    requires g.Has(i) && g.nodes[i].Primary? && Blind(g, OfPrim(i), w) && Blind(g, OfRest(g.nodes[i].next), v)
    ensures Blind(g, OfRest(i), w + v)
  {
    forall s, pos: nat | At(s, pos, w + v)
      ensures HasOutcome(g, s, OfRest(i), pos, Ok(pos + |w + v|, false))
    {
      assert s[pos..pos + |w|] == (w + v)[..|w|] == w;
      assert s[pos + |w|..pos + |w| + |v|] == (w + v)[|w|..] == v;
      var r, t := Ok(pos + |w|, false), Ok(pos + |w| + |v|, false);
      var p := BlindAt(g, OfPrim(i), w, s, pos);
      var q := BlindAt(g, OfRest(g.nodes[i].next), v, s, pos + |w|);
      assert Derives(g, s, OfRest(i), pos, t, Two(p, r, q, t));
    }
  }

  lemma BlindPrim(g: Grammar, i: int, w: Input)
    requires g.Has(i) && g.nodes[i].Primary? && g.nodes[i].prefix == None && (g.nodes[i].suffix == None || g.nodes[i].suffix == Question)
    requires Blind(g, OfMatch(g.nodes[i].match_), w)
    ensures Blind(g, OfPrim(i), w)
  {
    forall s, pos: nat | At(s, pos, w)
      ensures HasOutcome(g, s, OfPrim(i), pos, Ok(pos + |w|, false))
    {
      var p := BlindAt(g, OfMatch(g.nodes[i].match_), w, s, pos);
      assert Derives(g, s, OfPrim(i), pos, Ok(pos + |w|, false), One(p, Ok(pos + |w|, false)));
    }
  }

  lemma BlindRefer(g: Grammar, i: int, e: int, w: Input)
    requires g.Has(i) && Blind(g, OfChoice(e), w)
    requires match g.nodes[i]
             case Sequence(_, _) => e == i
             case Identifier(def) => !g.IsToken(def) && g.Has(def) && g.nodes[def].Definition? && e == g.nodes[def].expr
             case _ => false
    ensures Blind(g, OfMatch(i), w)
  {
    forall s, pos: nat | At(s, pos, w)
      ensures HasOutcome(g, s, OfMatch(i), pos, Ok(pos + |w|, false))
    {
      var p := BlindAt(g, OfChoice(e), w, s, pos);
      assert Derives(g, s, OfMatch(i), pos, Ok(pos + |w|, false), One(p, Ok(pos + |w|, false)));
    }
  }

  lemma {:induction false} CharsTaken(s: Input, w: Input, pos: nat)
    requires At(s, pos, w)
    ensures Chars(s, w, pos) == Ok(pos + |w|, false)
    decreases |w|
  {
    if w != [] {
      assert s[pos] == s[pos..pos + |w|][0] && s[pos + 1..pos + |w|] == s[pos..pos + |w|][1..];
      CharsTaken(s, w[1..], pos + 1);
    }
  }

  lemma BlindLeaf(g: Grammar, i: int, w: Input)
    requires g.Has(i)
    requires match g.nodes[i]
             case Identifier(def) => g.IsToken(def) && w == [-def]
             case Literal(value) => w == value
             case Class(cset) => |w| == 1 && w[0] in cset
             case _ => false
    ensures Blind(g, OfMatch(i), w)
  {
    forall s, pos: nat | At(s, pos, w)
      ensures HasOutcome(g, s, OfMatch(i), pos, Ok(pos + |w|, false))
    {
      if g.nodes[i].Literal? { CharsTaken(s, w, pos); } else { assert s[pos] == s[pos..pos + 1][0]; }
      assert Derives(g, s, OfMatch(i), pos, Ok(pos + |w|, false), Axiom);
    }
  }

  lemma WordFound(g: Grammar, n: set<Goal>, goal: Goal)
    requires TakesWord(g, n, goal) && forall y :: y in n ==> HasBlind(g, y)
    ensures HasBlind(g, goal)
  {
    hide Blind;
    var i := goal.i;
    match goal {
      case OfChoice(_) =>
        if g.nodes[i].pri < 0 { BlindNone(g, g.nodes[i].pri); }
        assert HasBlind(g, OfRest(g.nodes[i].pri));
        var w :| Blind(g, OfRest(g.nodes[i].pri), w);
        BlindChoice(g, i, w);
      case OfRest(_) =>
        if g.nodes[i].next < 0 { BlindNone(g, g.nodes[i].next); }
        assert HasBlind(g, OfPrim(i)) && HasBlind(g, OfRest(g.nodes[i].next));
        var w :| Blind(g, OfPrim(i), w);
        var v :| Blind(g, OfRest(g.nodes[i].next), v);
        BlindRest(g, i, w, v);
      case OfPrim(_) =>
        assert HasBlind(g, OfMatch(g.nodes[i].match_));
        var w :| Blind(g, OfMatch(g.nodes[i].match_), w);
        BlindPrim(g, i, w);
      case OfMatch(_) =>
        match g.nodes[i]
        case Literal(value) => BlindLeaf(g, i, value);
        case Class(cset) => var c :| c in cset; BlindLeaf(g, i, [c]);
        case Sequence(_, _) =>
          assert HasBlind(g, OfChoice(i));
          var w :| Blind(g, OfChoice(i), w);
          BlindRefer(g, i, i, w);
        case Identifier(def) =>
          if g.IsToken(def) {
            BlindLeaf(g, i, [-def]);
          } else {
            var e := g.nodes[def].expr;
            assert HasBlind(g, OfChoice(e));
            var w :| Blind(g, OfChoice(e), w);
            BlindRefer(g, i, e, w);
          }
    }
  }

  /** A grammar that can do without looking has an input that matches as a whole and is reported as a failure. */
  lemma BlindInput(g: Grammar, start: int) returns (s: Input, d: Proof)
    requires TakesBlindly(g, start)
    ensures Derives(g, s, OfMatch(start), 0, Ok(|s|, false), d) && Verdict(Ok(|s|, false), |s|) == -1
  {
    var rule, holds := (n, goal) => TakesWord(g, n, goal), goal => HasBlind(g, goal);
    forall n, x | n <= Goals(g) && x in Goals(g) && rule(n, x) && (forall y :: y in n ==> holds(y))
      ensures holds(x)
    {
      WordFound(g, n, x);
    }
    LeastHolds(Goals(g), rule, holds);
    assert HasBlind(g, OfMatch(start));
    s :| Blind(g, OfMatch(start), s);
    assert s[0..0 + |s|] == s;
    d := BlindAt(g, OfMatch(start), s, s, 0);
  }

  /** So such a grammar is not one that always looks. */
  lemma NotBoth(g: Grammar, start: int)
    requires TakesBlindly(g, start)
    ensures !LooksPast(g, start)
  {
    var s, d := BlindInput(g, start);
    if LooksPast(g, start) { LooksPastExact(g, s, start, Ok(|s|, false), d); }
  }
}
