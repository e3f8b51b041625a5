/**
 * Boyer-Moore matching: bm_pinit and bm_match of src/match.c.
 *
 * Positions `a`, `b` in a pattern `p` are cut points between 0 and |p|; the C arrays keep the entry of the
 * cut point `b` at index `b - 1`.
 */
module BoyerMoore {
  import opened Text

  /** Moving `p` to the right by `d` over itself keeps the bytes from `b` on. */
  predicate Agrees(p: Bytes, b: int, d: int) {
    forall k :: 0 <= b <= k < |p| && 0 <= d <= k ==> p[k - d] == p[k]
  }

  /** `p[b..]` is a proper border of `p[a..]`. */
  predicate Border(p: Bytes, a: int, b: int) {
    0 <= a < b <= |p| && Agrees(p, b, b - a)
  }

  /** `b` starts the longest proper border of `p[a..]`; the empty suffix has none, which reads |p| + 1. */
  ghost predicate NextBorder(p: Bytes, a: int, b: int) {
    if a == |p| then b == |p| + 1
    else Border(p, a, b) && forall c :: Border(p, a, c) ==> b <= c
  }

  /** The suffix from `b` also ends right before `|p| - (b - a)`, there preceded by another byte. */
  predicate Strong(p: Bytes, a: int, b: int) {
    0 < a && Border(p, a, b) && p[a - 1] != p[b - 1]
  }

  /** After the bytes from `b` on matched and byte `b - 1` did not, an occurrence `d` further on is conceivable. */
  predicate Compatible(p: Bytes, b: int, d: int) {
    0 < d && 0 < b <= |p| && Agrees(p, b, d) && (d < b ==> p[b - 1 - d] != p[b - 1])
  }

  /** The good-suffix entry of `b`: the least shift its mismatch leaves conceivable. */
  ghost predicate GoodSuffix(p: Bytes, b: int, d: int) {
    Compatible(p, b, d) && forall e :: Compatible(p, b, e) ==> d <= e
  }

  /** The bad-byte entry: one past the last index of `c`, 0 when `c` does not occur. */
  ghost predicate LastIndex(p: Bytes, c: int, n: int) {
    0 <= n <= |p| && (0 < n ==> p[n - 1] == c) && forall k :: n <= k < |p| ==> p[k] != c
  }

  // ----- borders -----

  lemma BorderChain(p: Bytes, a: int, b: int, c: int)
    requires Border(p, a, b) && b < c
    ensures Border(p, a, c) <==> Border(p, b, c)
  {
    if Border(p, a, c) {
      forall k | c <= k < |p| && c - b <= k
        ensures p[k - (c - b)] == p[k]
      {
        assert p[(k - (c - b)) - (b - a)] == p[k - (c - b)];
      }
    }
    if Border(p, b, c) {
      forall k | c <= k < |p| && c - a <= k
        ensures p[k - (c - a)] == p[k]
      {
        assert p[(k - (c - b)) - (b - a)] == p[k - (c - b)];
      }
    }
  }

  lemma BorderStep(p: Bytes, a: int, b: int)
    requires 0 < a < b <= |p|
    ensures Border(p, a - 1, b - 1) <==> Border(p, a, b) && p[a - 1] == p[b - 1]
  {
    if Border(p, a - 1, b - 1) {
      assert p[(b - 1) - (b - a)] == p[b - 1];
    }
  }

  lemma NextBorderStep(p: Bytes, a: int, b: int)
    requires 0 < a <= |p|
    requires b == |p| + 1 || (Border(p, a, b) && p[a - 1] == p[b - 1])
    requires forall c {:trigger Border(p, a, c)} :: Border(p, a, c) && c < b ==> p[a - 1] != p[c - 1]
    ensures NextBorder(p, a - 1, b - 1)
  {
    if b <= |p| { BorderStep(p, a, b); }
    var before := a - 1;
    forall c | Border(p, before, c)
      ensures b - 1 <= c
    {
      if c < |p| { BorderStep(p, a, c + 1); }
    }
  }

  // ----- first pass: shifts that keep part of the suffix inside the pattern -----

  /** What the first pass has made of the entry of `b` once it has dealt with the cut points from `a` on. */
  ghost predicate Entry(p: Bytes, a: int, b: int, d: int) {
    && 0 <= d
    && (d == 0 ==> forall c :: a <= c ==> !Strong(p, c, b))
    && (d > 0 ==> a <= b - d && Strong(p, b - d, b) && forall c :: b - d < c ==> !Strong(p, c, b))
  }

  ghost predicate Entries(p: Bytes, a: int, skips: seq<int>) {
    |p| <= |skips| && forall j :: 0 <= j < |p| ==> Entry(p, a, j + 1, skips[j])
  }

  /** In the round of `a`, the entries below `lim` are done. */
  ghost predicate Halfway(p: Bytes, a: int, lim: int, skips: seq<int>) {
    |p| <= |skips| && forall j :: 0 <= j < |p| ==> Entry(p, if j + 1 < lim then a else a + 1, j + 1, skips[j])
  }

  ghost predicate Chain(p: Bytes, a: int, scratch: seq<int>) {
    |p| <= |scratch| && forall j :: 0 <= a - 1 <= j < |p| ==> NextBorder(p, j + 1, scratch[j])
  }

  /** The borders of `p[a..]` before `b` have all been visited and did not continue to the left. */
  ghost predicate Visiting(p: Bytes, a: int, b: int) {
    && 0 < a && (b == |p| + 1 || Border(p, a, b))
    && forall c {:trigger Border(p, a, c)} :: Border(p, a, c) && c < b ==> p[a - 1] != p[c - 1]
  }

  lemma VisitNext(p: Bytes, a: int, b: int, next: int)
    requires b <= |p| && Visiting(p, a, b) && p[a - 1] != p[b - 1] && NextBorder(p, b, next)
    ensures b < next <= |p| + 1 && Visiting(p, a, next)
    ensures forall c {:trigger Border(p, a, c)} :: Border(p, a, c) && b < c ==> next <= c
  {
    forall c | Border(p, a, c) && b < c
      ensures next <= c
    {
      BorderChain(p, a, b, c);
    }
    if next <= |p| { BorderChain(p, a, b, next); }
  }

  /** Visiting `b` completes the entries below the next border: those in between have no strong pair here. */
  lemma VisitEntries(p: Bytes, a: int, b: int, next: int, skips: seq<int>)
    requires b <= |p| && Visiting(p, a, b) && p[a - 1] != p[b - 1] && NextBorder(p, b, next)
    requires Halfway(p, a, b, skips)
    ensures Halfway(p, a, next, if skips[b - 1] == 0 then skips[b - 1 := b - a] else skips)
  {
    VisitNext(p, a, b, next);
    var table := if skips[b - 1] == 0 then skips[b - 1 := b - a] else skips;
    forall j | 0 <= j < |p|
      ensures Entry(p, if j + 1 < next then a else a + 1, j + 1, table[j])
    {
      assert Entry(p, if j + 1 < b then a else a + 1, j + 1, skips[j]);
      if j + 1 == b {
        assert Strong(p, a, b);
        if skips[j] == 0 {
          assert b - table[j] == a;
        }
      } else if b < j + 1 < next {
        assert !Strong(p, a, j + 1);
      }
    }
  }

  lemma RoundDone(p: Bytes, a: int, b: int, skips: seq<int>)
    requires 0 < a && Visiting(p, a, b) && Halfway(p, a, b, skips)
    requires b <= |p| ==> p[a - 1] == p[b - 1]
    ensures Entries(p, a, skips)
  {
    forall j | 0 <= j < |p|
      ensures Entry(p, a, j + 1, skips[j])
    {
      var c := j + 1;
      assert Entry(p, if c < b then a else a + 1, c, skips[j]);
      if b <= c && Strong(p, a, c) {
        assert b < c;
        BorderChain(p, a, b, c);
        assert Strong(p, b, c);
      }
    }
  }

  // ----- second pass: shifts past the cut point -----

  lemma PassStart(p: Bytes, skips: seq<int>, scratch: seq<int>)
    requires |p| <= |skips| && |p| <= |scratch| && forall c :: 0 <= c < |p| ==> skips[c] == 0
    ensures Entries(p, |p| + 1, skips) && Chain(p, |p| + 1, scratch) && NextBorder(p, |p|, |p| + 1)
  {
  }

  lemma RoundStart(p: Bytes, j: nat, i: nat, skips: seq<int>)
    requires j < |p| && Entries(p, j + 2, skips) && NextBorder(p, j + 1, i + 1)
    ensures j < i <= |p| && Visiting(p, j + 1, i + 1) && Halfway(p, j + 1, i + 1, skips)
  {
  }

  lemma RoundNext(p: Bytes, j: nat, i: nat)
    requires j < i <= |p| && Visiting(p, j + 1, i + 1) && (i < |p| ==> p[i] == p[j])
    ensures NextBorder(p, j, i)
  {
    NextBorderStep(p, j + 1, i + 1);
  }

  lemma ChainMore(p: Bytes, j: nat, links: seq<int>, b: int)
    requires j < |p| <= |links| && Chain(p, j + 2, links) && NextBorder(p, j + 1, b)
    ensures Chain(p, j + 1, links[j := b])
  {
    hide NextBorder;
  }

  lemma ChainAt(p: Bytes, a: int, scratch: seq<int>, j: nat)
    requires Chain(p, a, scratch) && 0 <= a - 1 <= j < |p|
    ensures NextBorder(p, j + 1, scratch[j]) && j + 1 < scratch[j]
  {
  }

  lemma EntryAt(p: Bytes, a: int, skips: seq<int>, j: nat)
    requires Entries(p, a, skips) && j < |p|
    ensures Entry(p, a, j + 1, skips[j]) && skips[j] >= 0
  {
  }

  /** `c` is the least cut point from `b` on where a border of the whole pattern starts. */
  ghost predicate FirstBorder(p: Bytes, b: int, c: int) {
    b <= c && Border(p, 0, c) && forall e :: b <= e && Border(p, 0, e) ==> c <= e
  }

  /** Shifts below `b` are the strong cut points; shifts from `b` on are the borders of the pattern. */
  lemma CompatibleCases(p: Bytes, b: int, d: int)
    requires 0 < b <= |p| && 0 < d
    ensures d < b ==> (Compatible(p, b, d) <==> Strong(p, b - d, b))
    ensures b <= d <= |p| ==> (Compatible(p, b, d) <==> Border(p, 0, d))
    ensures |p| < d ==> Compatible(p, b, d)
  {
    if b <= d <= |p| && Border(p, 0, d) {
      forall k | b <= k < |p| && d <= k
        ensures p[k - d] == p[k]
      {
      }
    }
  }

  lemma EntryFinal(p: Bytes, b: int, d: int, c: int)
    requires 1 <= b <= |p| && Entry(p, 1, b, d) && FirstBorder(p, b, c)
    ensures GoodSuffix(p, b, if d == 0 then c else d)
  {
    var s := if d == 0 then c else d;
    CompatibleCases(p, b, s);
    forall e | Compatible(p, b, e)
      ensures s <= e
    {
      CompatibleCases(p, b, e);
      if e < b {
        assert Strong(p, b - e, b);
      }
    }
  }

  lemma BorrowStart(p: Bytes, b: int)
    requires 0 < |p| && NextBorder(p, 0, b)
    ensures FirstBorder(p, 1, b)
  {
  }

  lemma FirstBorderNext(p: Bytes, b: int, c: int, next: int)
    requires 1 <= b < |p| && FirstBorder(p, b, c) && (c == b ==> NextBorder(p, b, next))
    ensures FirstBorder(p, b + 1, if c == b then next else c)
  {
    if c == b {
      BorderChain(p, 0, b, next);
      forall e | b + 1 <= e && Border(p, 0, e)
        ensures next <= e
      {
        BorderChain(p, 0, b, e);
      }
    }
  }

  // ----- matching -----

  /** Neither rule ever jumps over an occurrence. */
  lemma SafeShift(p: Bytes, text: Bytes, i: int, j: int, skip: int, last: int, k: int)
    requires 0 < j <= |p| && 0 <= i && i + |p| <= |text|
    requires text[i + j..i + |p|] == p[j..] && text[i + j - 1] != p[j - 1]
    requires GoodSuffix(p, j, skip) && LastIndex(p, text[i + j - 1], last)
    requires OccursAt(text, p, k) && i <= k
    ensures i + skip <= k && (last < j ==> i + j - last <= k) && i < k
  {
    var d := k - i;
    assert p[j - 1] == text[k + j - 1] by {
      assert text[k..k + |p|][j - 1] == text[k + j - 1];
    }
    forall n | j <= n < |p| && d <= n
      ensures p[n - d] == p[n]
    {
      assert text[k..k + |p|][n - d] == text[i + n] == text[i + j..i + |p|][n - j] == p[j..][n - j];
    }
    if d < j {
      assert text[k..k + |p|][j - 1 - d] == text[i + j - 1];
    }
    assert Compatible(p, j, d);
  }

  /** struct bmpat. */
  class BmPat {
    var pat: Bytes
    var last: array<nat>
    var skips: array<nat>

    ghost predicate Valid()
      reads this, last, skips
    {
      && last.Length == 256
      && |pat| <= skips.Length
      && (|pat| > 0 ==>
            && (forall c :: 0 <= c < 256 ==> LastIndex(pat, c, last[c]))
            && (forall j :: 0 <= j < |pat| ==> GoodSuffix(pat, j + 1, skips[j])))
    }

    /** bm_pinit. An empty pattern leaves the tables as they are. */
    constructor (pat: Bytes, skips: array<nat>, scratch: array<nat>)
      requires |pat| <= skips.Length && |pat| <= scratch.Length && skips != scratch
      modifies skips, scratch
      ensures Valid() && this.pat == pat && this.skips == skips && fresh(last)
    {
      this.pat := pat;
      this.last := new nat[256];
      this.skips := skips;
      new;
      if |pat| == 0 {
        return;
      }
      FillLast(pat, last);
      var i := BorderPass(pat, skips, scratch);
      BorrowPass(pat, skips, scratch, i);
    }

    static method FillLast(pat: Bytes, last: array<nat>)
      requires last.Length == 256
      modifies last
      ensures forall c :: 0 <= c < 256 ==> LastIndex(pat, c, last[c])
    {
      for i := 0 to 256
        invariant forall c :: 0 <= c < i ==> last[c] == 0
      {
        last[i] := 0;
      }
      for i := 0 to |pat|
        invariant forall c :: 0 <= c < 256 ==> LastIndex(pat[..i], c, last[c])
      {
        last[pat[i]] := i + 1;
        assert forall k :: 0 <= k < i ==> pat[..i][k] == pat[..i + 1][k];
      }
      assert pat[..|pat|] == pat;
    }

    /** The first pass; the result is the value of `i` it leaves. */
    static method BorderPass(pat: Bytes, skips: array<nat>, scratch: array<nat>) returns (i: nat)
      requires 0 < |pat| <= skips.Length && |pat| <= scratch.Length && skips != scratch
      modifies skips, scratch
      ensures Entries(pat, 1, skips[..]) && Chain(pat, 1, scratch[..]) && NextBorder(pat, 0, i + 1)
    {
      hide Entry, Chain, Border, Visiting, Halfway, NextBorder, Entries;
      for k := 0 to |pat|
        invariant forall c :: 0 <= c < k ==> skips[c] == 0
      {
        skips[k] := 0;
      }
      PassStart(pat, skips[..], scratch[..]);
      i := |pat|;
      var j := |pat| - 1;
      while j >= 0
        invariant -1 <= j < |pat| && j < i <= |pat|
        invariant Entries(pat, j + 2, skips[..]) && Chain(pat, j + 2, scratch[..]) && NextBorder(pat, j + 1, i + 1)
      {
        ghost var links: seq<int> := scratch[..];
        scratch[j] := i + 1;
        assert scratch[..] == links[j := i + 1];
        ChainMore(pat, j, links, i + 1);
        RoundStart(pat, j, i, skips[..]);
        i := FollowBorders(pat, skips, scratch, j, i);
        RoundDone(pat, j + 1, i + 1, skips[..]);
        RoundNext(pat, j, i);
        i := i - 1;
        j := j - 1;
      }
    }

    /** The inner loop of the first pass: enter the shift `i - j` until the border continues to the left. */
    static method FollowBorders(pat: Bytes, skips: array<nat>, scratch: array<nat>, j: nat, start: nat) returns (i: nat)
      requires j < |pat| <= skips.Length && |pat| <= scratch.Length && skips != scratch && j < start <= |pat|
      requires Chain(pat, j + 1, scratch[..]) && Visiting(pat, j + 1, start + 1)
      requires Halfway(pat, j + 1, start + 1, skips[..])
      modifies skips
      ensures j < i <= |pat| && Visiting(pat, j + 1, i + 1) && Halfway(pat, j + 1, i + 1, skips[..])
      ensures i < |pat| ==> pat[i] == pat[j]
    {
      hide Border, NextBorder, Visiting, Halfway;
      i := start;
      while i < |pat| && pat[i] != pat[j]
        invariant j < i <= |pat| && Visiting(pat, j + 1, i + 1)
        invariant Halfway(pat, j + 1, i + 1, skips[..]) && Chain(pat, j + 1, scratch[..])
      {
        ghost var table := skips[..];
        assert NextBorder(pat, i + 1, scratch[..][i]);
        VisitNext(pat, j + 1, i + 1, scratch[i]);
        VisitEntries(pat, j + 1, i + 1, scratch[i], table);
        if skips[i] == 0 {
          skips[i] := i - j;
        }
        assert skips[..] == if table[i] == 0 then table[i := skips[i]] else table;
        i := scratch[i] - 1;
      }
    }

    /** The second pass. */
    static method BorrowPass(pat: Bytes, skips: array<nat>, scratch: array<nat>, start: nat)
      requires 0 < |pat| <= skips.Length && |pat| <= scratch.Length && skips != scratch
      requires Entries(pat, 1, skips[..]) && Chain(pat, 1, scratch[..]) && NextBorder(pat, 0, start + 1)
      modifies skips
      ensures forall j :: 0 <= j < |pat| ==> GoodSuffix(pat, j + 1, skips[j])
    {
      hide Entry, Chain, Border, NextBorder, Entries, GoodSuffix, FirstBorder;
      var i := start;
      ghost var table := skips[..];
      BorrowStart(pat, start + 1);
      for j := 0 to |pat|
        invariant j < |pat| ==> 0 <= i && FirstBorder(pat, j + 1, i + 1)
        invariant forall c :: j <= c < |pat| ==> skips[c] == table[c]
        invariant forall k :: 0 <= k < j ==> GoodSuffix(pat, k + 1, skips[k])
      {
        EntryAt(pat, 1, table, j);
        EntryFinal(pat, j + 1, table[j], i + 1);
        if skips[j] == 0 {
          skips[j] := i + 1;
        }
        ChainAt(pat, 1, scratch[..], j);
        if j + 1 < |pat| { FirstBorderNext(pat, j + 1, i + 1, scratch[j]); }
        if i == j {
          i := scratch[j] - 1;
        }
      }
    }

    /** bm_match; the C code computes `slen - plen` unsigned, so it needs the pattern no longer than the text. */
    method Match(str: Bytes) returns (found: bool, loc: nat)
      requires Valid() && |pat| <= |str|
      ensures found <==> Occurs(str, pat)
      ensures found ==> Leftmost(str, pat, loc)
    {
      var i := 0;
      loc := 0;
      while i <= |str| - |pat|
        invariant 0 <= i
        invariant forall k :: OccursAt(str, pat, k) ==> i <= k
      {
        var j := |pat|;
        while j > 0 && pat[j - 1] == str[i + j - 1]
          invariant 0 <= j <= |pat| && str[i + j..i + |pat|] == pat[j..]
        {
          j := j - 1;
        }
        if j == 0 {
          assert OccursAt(str, pat, i);
          return true, i;
        }
        var skip := last[str[i + j - 1]];
        if skip < j {
          skip := j - skip;
        } else {
          skip := 1;
        }
        if skip < skips[j - 1] {
          skip := skips[j - 1];
        }
        forall k | OccursAt(str, pat, k)
          ensures i + skip <= k
        {
          SafeShift(pat, str, i, j, skips[j - 1], last[str[i + j - 1]], k);
        }
        i := i + skip;
      }
      found := false;
    }
  }
}
