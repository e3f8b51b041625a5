/** The recogniser of src/cpg.c: backtracking over a buffer that grows as the stream is read. */
module PegMatch {
  import opened PegGrammar
  import opened PegRecursion
  import opened PegEnd

  const EOF := -1
  const CHUNK := 4096
  const NO_EOF := 0xFFFF_FFFF
  const NEWLINE := 10

  /** The line of the last of the first `pos` characters. */
  function LineAt(s: Input, pos: nat): nat
    requires pos <= |s|
  {
    if pos == 0 then 1 else LineAt(s, pos - 1) + (if pos >= 2 && s[pos - 2] == NEWLINE then 1 else 0)
  }

  /** What a matching function reports, where it leaves the cursor, and whether the end has been met by then. */
  predicate Agrees(out: Out, rv: int, i0: nat, i1: nat, eof0: nat, eof1: nat) {
    && (if out.Ok? then rv == 1 && i1 == out.end + 1 else rv == 0 && i1 == i0)
    && (eof1 != NO_EOF <==> eof0 != NO_EOF || out.seen)
  }

  predicate Bytes(s: Input) {
    forall j :: 0 <= j < |s| ==> 0 <= s[j] < 256
  }

  /** struct cpg_state. `input` is all that the stream has to give; the buffer has it from its second place on. */
  class State {
    const g: Grammar
    const input: Input
    ghost const a: Analysis
    var i: nat
    var line: nat
    var buf: seq<int>
    var readidx: nat
    var eof: nat

    /** The buffer is a prefix of the stream, and the cursor is in it. */
    ghost predicate Valid()
      reads this
    {
      && Good(g, a) && |input| + 1 < NO_EOF && Bytes(input)
      && 1 <= i <= readidx <= |input| + 1 && readidx <= |buf| && buf[..readidx] == [0] + input[..readidx - 1]
      && (eof == NO_EOF || eof == readidx == |input| + 1)
      && line == LineAt(input, i - 1)
    }

    /** cpg_init, cpg_reset, for a grammar without left recursion and nullable repetitions. */
    constructor (g: Grammar, input: Input)
      requires Ends(g) && |input| + 1 < NO_EOF && Bytes(input)
      ensures Valid() && i == 1 && eof == NO_EOF && this.g == g && this.input == input
    {
      this.g, this.input, this.a := g, input, AnalysisOf(g);
      buf := seq(CHUNK, j => 0);
      i, line, readidx, eof := 1, 1, 1, NO_EOF;
    }

    /** The first half of cpg_getc, with memory always available: the character at the cursor is in the buffer, or there is none. */
    method Fill() returns (c: int)
      requires Valid()
      modifies this`buf, this`readidx, this`eof
      ensures Valid() && (if i - 1 == |input| then c == EOF && eof != NO_EOF else c != EOF && i < readidx && eof == old(eof))
    {
      hide Good, LineAt;
      if i >= eof {
        return EOF;
      }
      if i >= |buf| {
        buf := buf + seq(CHUNK, j => 0);
      }
      c := 0;
      if i >= readidx {
        if readidx - 1 == |input| {
          eof := i;
          return EOF;
        }
        ghost var b := buf[..readidx];
        buf := buf[readidx := input[readidx - 1]];
        readidx := readidx + 1;
        assert buf[..readidx] == b + [input[readidx - 2]];
      }
    }

    /** cpg_getc */
    method Getc() returns (c: int)
      requires Valid()
      modifies this`i, this`line, this`buf, this`readidx, this`eof
      ensures Valid()
      ensures if old(i) - 1 == |input| then c == EOF && i == old(i) && eof != NO_EOF
              else c == input[old(i) - 1] && c != EOF && i == old(i) + 1 && eof == old(eof)
    {
      c := Fill();
      if c == EOF {
        return;
      }
      assert forall j :: 1 <= j < readidx ==> buf[..readidx][j] == input[j - 1];
      assert buf[0] == buf[..readidx][0] == 0;
      if buf[i - 1] == NEWLINE {
        line := line + 1;
      }
      c := buf[i];
      i := i + 1;
    }

    /** `state->cur = oc` */
    method Back(i0: nat, line0: nat)
      requires Valid() && 1 <= i0 <= i && line0 == LineAt(input, i0 - 1)
      modifies this`i, this`line
      ensures Valid() && i == i0 && line == line0
    {
      i, line := i0, line0;
    }

    /** cpg_match_literal */
    method MatchLiteral(lit: int) returns (rv: int)
      requires Valid() && g.Has(lit) && g.nodes[lit].Literal?
      modifies this`i, this`line, this`buf, this`readidx, this`eof
      ensures Valid() && Agrees(Chars(input, g.nodes[lit].value, old(i) - 1), rv, old(i), i, old(eof), eof)
      ensures rv == 1 <==> TextAt(input, g.nodes[lit].value, old(i) - 1)
    {
      hide Good, TextAt, LineAt;
      LiteralIs(input, g.nodes[lit].value, i - 1);
      var i0, line0, value := i, line, g.nodes[lit].value;
      var k := 0;
      while k < |value|
        invariant 0 <= k <= |value| && Valid() && i0 <= i && eof == old(eof)
        invariant Chars(input, value, i0 - 1) == Chars(input, value[k..], i - 1)
      {
        var c := Getc();
        assert value[k..][1..] == value[k + 1..];
        if c == EOF || c != value[k] {
          Back(i0, line0);
          return 0;
        }
        k := k + 1;
      }
      rv := 1;
    }

    /** cpg_match_class, and cpg_match_token with the token as the only character. */
    method MatchOne(cset: set<int>) returns (rv: int)
      requires Valid()
      modifies this`i, this`line, this`buf, this`readidx, this`eof
      ensures Valid() && Agrees(OneChar(input, cset, old(i) - 1), rv, old(i), i, old(eof), eof)
      ensures rv == 1 <==> old(i) - 1 < |input| && input[old(i) - 1] in cset
    {
      var i0, line0 := i, line;
      var c := Getc();
      if c != EOF && c in cset {
        return 1;
      } else {
        Back(i0, line0);
        return 0;
      }
    }

    /** cpg_match_expression */
    method MatchExpression(seq0: int) returns (rv: int)
      requires Valid() && SeqIdx(g, seq0)
      modifies this`i, this`line, this`buf, this`readidx, this`eof
      ensures Valid() && Agrees(Choice(g, a, input, seq0, old(i) - 1), rv, old(i), i, old(eof), eof)
      decreases |input| + 1 - i, if seq0 < 0 then 0 else a.rank[seq0] + 1, 4
    {
      var s := seq0;
      ghost var seen := false;
      while s >= 0
        invariant Valid() && SeqIdx(g, s) && i == old(i) && (eof != NO_EOF <==> old(eof) != NO_EOF || seen)
        invariant Choice(g, a, input, seq0, i - 1) == Choice(g, a, input, s, i - 1).Seen(seen)
        invariant s >= 0 ==> seq0 >= 0 && a.rank[s] <= a.rank[seq0]
        decreases if s < 0 then 0 else a.rank[s] + 1
      {
        assert NodeOk(g, a, s);
        rv := MatchSequence(s);
        if rv != 0 {
          return;
        }
        seen := seen || Rest(g, a, input, g.nodes[s].pri, i - 1).seen;
        s := g.nodes[s].next;
      }
      rv := 0;
    }

    /** cpg_match_sequence */
    method MatchSequence(s: int) returns (rv: int)
      requires Valid() && g.Has(s) && g.nodes[s].Sequence?
      modifies this`i, this`line, this`buf, this`readidx, this`eof
      ensures Valid() && PrimIdx(g, g.nodes[s].pri) && Agrees(Rest(g, a, input, g.nodes[s].pri, old(i) - 1), rv, old(i), i, old(eof), eof)
      decreases |input| + 1 - i, a.rank[s] + 1, 3
    {
      assert NodeOk(g, a, s);
      var i0, line0 := i, line;
      var pri := g.nodes[s].pri;
      ghost var seen := false;
      while pri >= 0
        invariant Valid() && PrimIdx(g, pri) && i0 <= i && (eof != NO_EOF <==> old(eof) != NO_EOF || seen)
        invariant Rest(g, a, input, g.nodes[s].pri, i0 - 1) == Rest(g, a, input, pri, i - 1).Seen(seen)
        invariant i == i0 && pri >= 0 ==> a.rank[pri] < a.rank[s]
        decreases |input| + 1 - i, if pri < 0 then 0 else a.rank[pri] + 1
      {
        assert NodeOk(g, a, pri);
        ghost var out := Prim(g, a, input, pri, i - 1);
        rv := MatchPrimary(pri);
        seen := seen || out.seen;
        if rv <= 0 {
          Back(i0, line0);
          return;
        }
        pri := g.nodes[pri].next;
      }
      rv := 1;
    }

    /** cpg_match_primary, without callbacks. */
    method MatchPrimary(pri: int) returns (rv: int)
      requires Valid() && g.Has(pri) && g.nodes[pri].Primary?
      modifies this`i, this`line, this`buf, this`readidx, this`eof
      ensures Valid() && Agrees(Prim(g, a, input, pri, old(i) - 1), rv, old(i), i, old(eof), eof)
      ensures g.nodes[pri].prefix != None || rv != 1 ==> i == old(i) && line == old(line)
      decreases |input| + 1 - i, a.rank[pri] + 1, 2
    {
      assert NodeOk(g, a, pri);
      var i0, line0, pn := i, line, g.nodes[pri];
      var rv1, nmatch := MatchRepeated(pri);
      rv := rv1;
      match pn.suffix {
        case Question => rv := 1;
        case Star => rv := 1;
        case Plus => rv := if nmatch >= 1 then 1 else 0;
        case _ => rv := if nmatch == 1 then 1 else 0;
      }
      if pn.prefix != None {
        Back(i0, line0);
        if pn.prefix == Not {
          rv := 1 - rv;
        }
      } else if rv <= 0 {
        Back(i0, line0);
      }
    }

    /** The loop in it: how often what the primary refers to matches, at most once if it is not to be repeated. */
    method MatchRepeated(pri: int) returns (rv: int, nmatch: nat)
      requires Valid() && g.Has(pri) && g.nodes[pri].Primary?
      modifies this`i, this`line, this`buf, this`readidx, this`eof
      ensures Valid() && g.Has(g.nodes[pri].match_) && Repeated(g, a, input, pri, old(i), i, nmatch, old(eof), eof)
      decreases |input| + 1 - i, a.rank[pri] + 1, 1
    {
      hide Within;
      assert NodeOk(g, a, pri);
      var i0, pn := i, g.nodes[pri];
      var repeat := pn.suffix == Star || pn.suffix == Plus;
      nmatch := 0;
      ghost var m := Match(g, a, input, pn.match_, i0 - 1);
      ghost var seen := m.seen;
      MatchMoves(g, a, input, pri, i0 - 1);
      rv := MatchReferred(pn.match_);
      if rv > 0 { nmatch := nmatch + 1; }
      while rv > 0 && repeat
        invariant Valid() && i0 <= i && (eof != NO_EOF <==> old(eof) != NO_EOF || seen) && (rv == 0 || rv == 1)
        invariant nmatch >= 1 <==> m.Ok?
        invariant !repeat ==> Agrees(m, rv, i0, i, old(eof), eof) && nmatch <= 1
        invariant repeat ==> Many(g, a, input, pri, i0 - 1) == (if rv > 0 then Many(g, a, input, pri, i - 1).Seen(seen) else Ok(i - 1, seen))
        invariant repeat && rv > 0 ==> i0 < i && nmatch >= 1
        invariant nmatch == 0 ==> i == i0 && seen == m.seen && rv == 0
        decreases rv, |input| + 1 - i
      {
        ghost var out := Match(g, a, input, pn.match_, i - 1);
        MatchMoves(g, a, input, pri, i - 1);
        rv := MatchReferred(pn.match_);
        seen := seen || out.seen;
        if rv > 0 { nmatch := nmatch + 1; }
      }
    }

    /** The switch in it: what the primary refers to, with cpg_match_identifier. */
    method MatchReferred(m: int) returns (rv: int)
      requires Valid() && g.Has(m) && !g.nodes[m].Definition? && !g.nodes[m].Primary?
      modifies this`i, this`line, this`buf, this`readidx, this`eof
      ensures Valid() && Agrees(Match(g, a, input, m, old(i) - 1), rv, old(i), i, old(eof), eof)
      decreases |input| + 1 - i, a.rank[m] + 1, 5
    {
      assert NodeOk(g, a, m);
      match g.nodes[m] {
        case Sequence(_, _) => rv := MatchExpression(m);
        case Identifier(def) =>
          if g.IsToken(def) {
            rv := MatchOne({-def});
          } else {
            rv := MatchExpression(g.nodes[def].expr);
          }
        case Literal(_) => rv := MatchLiteral(m);
        case Class(cset) => rv := MatchOne(cset);
      }
    }

    /**
     * cpg_parse: success exactly when the start symbol takes the whole input and has looked for more. A match of the whole
     * input that does not look past what it takes is reported as -1, and so is a failure on an input that is not empty.
     */
    method Parse(start: int) returns (rv: int)
      requires Valid() && g.Has(start) && g.nodes[start].Identifier? && i == 1 && eof == NO_EOF
      modifies this`i, this`line, this`buf, this`readidx, this`eof
      ensures Valid() && Ends(g)
      ensures exists d :: Derives(g, input, OfMatch(start), 0, Outcome(g, input, start, 0), d)
      ensures rv == Verdict(Outcome(g, input, start, 0), |input|)
      ensures var out := Outcome(g, input, start, 0);
              && (rv == 1 <==> out.Ok? && out.end == |input| && out.seen)
              && (rv == 0 <==> out.Fail? && |input| == 0 && out.seen)
              && (rv == -1 || rv == 0 || rv == 1)
              && (LooksPast(g, start) ==> (rv == 1 <==> out.Ok? && out.end == |input|))
    {
      ghost var d := OutcomeOf(g, a, input, start, 0);
      rv := MatchReferred(start);
      if rv >= 0 && i < eof {
        rv := -1;
      }
      if LooksPast(g, start) { LooksPastExact(g, input, start, Outcome(g, input, start, 0), d); }
    }
  }

  lemma LiteralIs(s: Input, value: seq<int>, pos: nat)
    requires pos <= |s|
    ensures Chars(s, value, pos).Ok? <==> TextAt(s, value, pos)
  {
    CharsIs(s, value, pos);
  }

  /** The number of a line is one more than the newlines before its characters. */
  lemma {:induction false} LineCounts(s: Input, pos: nat)
    requires pos <= |s|
    ensures LineAt(s, pos) == if pos == 0 then 1 else 1 + multiset(s[..pos - 1])[NEWLINE]
  {
    if pos > 1 {
      LineCounts(s, pos - 1);
      assert s[..pos - 1] == s[..pos - 2] + [s[pos - 2]];
    }
  }

  /** What the methods compute does not depend on the analysis. */
  lemma OutcomeOf(g: Grammar, a: Analysis, s: Input, i: int, pos: nat) returns (d: Proof)
    requires Good(g, a) && g.Has(i) && !g.nodes[i].Definition? && !g.nodes[i].Primary? && pos <= |s|
    ensures Ends(g) && Match(g, a, s, i, pos) == Outcome(g, s, i, pos)
    ensures Derives(g, s, OfMatch(i), pos, Outcome(g, s, i, pos), d)
  {
    hide Derives, NoLeftRecursion, NoNullableStar, WellFormed;
    AnalysisEnds(g, a);
    d := DerivesMatch(g, a, s, i, pos);
    var e := DerivesMatch(g, AnalysisOf(g), s, i, pos);
    OneOutcome(g, s, OfMatch(i), pos, Match(g, a, s, i, pos), d, Outcome(g, s, i, pos), e);
  }

  /** Where the cursor and the end of the input stand after the loop of cpg_match_primary. */
  ghost predicate Repeated(g: Grammar, a: Analysis, s: Input, pri: int, i0: nat, i1: nat, nmatch: nat, eof0: nat, eof1: nat)
    requires Good(g, a) && g.Has(pri) && g.nodes[pri].Primary? && g.Has(g.nodes[pri].match_) && 1 <= i0 <= |s| + 1
  {
    assert NodeOk(g, a, pri);
    var n := g.nodes[pri];
    var m := Match(g, a, s, n.match_, i0 - 1);
    && (nmatch >= 1 <==> m.Ok?) && i0 <= i1
    && (if (n.suffix == Star || n.suffix == Plus) && m.Ok? then
          var r := Many(g, a, s, pri, i0 - 1); i1 == r.end + 1 && (eof1 != NO_EOF <==> eof0 != NO_EOF || r.seen)
        else nmatch <= 1 && Agrees(m, if m.Ok? then 1 else 0, i0, i1, eof0, eof1))
  }

  /** A repeated match moves on. */
  lemma MatchMoves(g: Grammar, a: Analysis, s: Input, pri: int, pos: nat)
    requires Good(g, a) && g.Has(pri) && g.nodes[pri].Primary? && pos <= |s|
    ensures NodeOk(g, a, pri)
    ensures var n := g.nodes[pri];
            var m := Match(g, a, s, n.match_, pos);
            && (m.Ok? ==> pos <= m.end <= |s|)
            && (n.suffix == Star || n.suffix == Plus ==>
                  && (m.Ok? ==> pos < m.end)
                  && Many(g, a, s, pri, pos) == if m.Ok? then Many(g, a, s, pri, m.end).Seen(m.seen) else Ok(pos, m.seen))
  {
  }

  /** `S <- 'a'` takes all of the input `a`, and cpg_parse reports a failure. */
  lemma BlindSuccess()
    ensures var g := Grammar([Definition(2), Identifier(0), Sequence(3, -1), Primary(4, None, None, -1), Literal([97])], 0);
            && Ends(g) && Outcome(g, [97], 1, 0) == Ok(1, false) && Verdict(Ok(1, false), 1) == -1 && !LooksPast(g, 1)
  {
    var g := Grammar([Definition(2), Identifier(0), Sequence(3, -1), Primary(4, None, None, -1), Literal([97])], 0);
    var a := Analysis([0, 4, 3, 2, 1], {}, {}, {});
    assert NodeOk(g, a, 0) && NodeOk(g, a, 1) && NodeOk(g, a, 2) && NodeOk(g, a, 3) && NodeOk(g, a, 4);
    hide LooksPast, Ends, Derives;
    var v := [97];
    assert v[1..] == [];
    assert Chars([97], v, 0) == Ok(1, false);
    assert Match(g, a, [97], 4, 0) == Ok(1, false);
    assert Prim(g, a, [97], 3, 0) == Ok(1, false);
    assert Rest(g, a, [97], 3, 0) == Ok(1, false);
    assert Choice(g, a, [97], 2, 0) == Ok(1, false);
    var d := OutcomeOf(g, a, [97], 1, 0);
    if LooksPast(g, 1) { LooksPastExact(g, [97], 1, Ok(1, false), d); }
  }
}
