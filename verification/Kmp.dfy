/** Knuth-Morris-Pratt matching: kmp_pinit and kmp_match of src/match.c. */
module Kmp {
  import opened Text

  /** The first `k` bytes of `p` are also the last `k` bytes of `s`. */
  predicate Ends(p: Bytes, s: Bytes, k: int) {
    0 <= k <= |p| && k <= |s| && s[|s| - k..] == p[..k]
  }

  /** `k` is the length of the longest prefix of `p` below `limit` that ends `s`. */
  ghost predicate Longest(p: Bytes, s: Bytes, limit: int, k: int) {
    k < limit && Ends(p, s, k) && forall j :: j < limit && Ends(p, s, j) ==> j <= k
  }

  /** `skips` holds, for the prefixes `p[..1]` to `p[..n]`, the length of the longest proper border. */
  ghost predicate Table(p: Bytes, skips: seq<nat>, n: int) {
    n <= |p| && n <= |skips| && forall q :: 0 <= q < n ==> Longest(p, p[..q + 1], q + 1, skips[q])
  }

  /** `q` bounds every prefix below `limit` that ends `s` and that `c` continues. */
  ghost predicate Candidate(p: Bytes, s: Bytes, c: Byte, limit: int, q: int) {
    forall k {:trigger Ends(p, s, k)} :: k < limit && k < |p| && Ends(p, s, k) && p[k] == c ==> k <= q
  }

  /** Of two prefixes that end the same string the shorter is a border of the longer, and conversely. */
  lemma EndsOfEnds(p: Bytes, s: Bytes, q: int, k: int)
    requires Ends(p, s, q) && 0 <= k <= q
    ensures Ends(p, s, k) <==> Ends(p, p[..q], k)
  {
  }

  /** A nonempty prefix ends `s + [c]` exactly when the one before it ends `s` and `c` continues it. */
  lemma EndsStep(p: Bytes, s: Bytes, c: Byte, k: int)
    requires 0 < k
    ensures Ends(p, s + [c], k) <==> k <= |p| && Ends(p, s, k - 1) && p[k - 1] == c
  {
    var t := s + [c];
    if k <= |p| && k <= |t| {
      assert t[|t| - k..] == s[|s| - (k - 1)..] + [c];
      assert p[..k] == p[..k - 1] + [p[k - 1]];
      if t[|t| - k..] == p[..k] {
        assert s[|s| - (k - 1)..] == t[|t| - k..][..k - 1] == p[..k][..k - 1] == p[..k - 1];
      }
    }
  }

  /** Falling back along the table skips no candidate. */
  lemma FallBack(p: Bytes, s: Bytes, c: Byte, limit: int, q: int, f: int)
    requires 0 < q < |p| && Ends(p, s, q) && Candidate(p, s, c, limit, q) && p[q] != c
    requires Longest(p, p[..q], q, f)
    ensures Ends(p, s, f) && Candidate(p, s, c, limit, f)
  {
    EndsOfEnds(p, s, q, f);
    forall k | k < limit && k < |p| && Ends(p, s, k) && p[k] == c
      ensures k <= f
    {
      EndsOfEnds(p, s, q, k);
    }
  }

  /** Once no fall-back is left, either `c` extends the longest candidate or only the empty prefix is left. */
  lemma Advance(p: Bytes, s: Bytes, c: Byte, limit: int, q: int)
    requires 0 <= q < |p| && q < limit && Ends(p, s, q) && Candidate(p, s, c, limit, q)
    requires q == 0 || p[q] == c
    ensures Longest(p, s + [c], limit + 1, if p[q] == c then q + 1 else q)
  {
    var r := if p[q] == c then q + 1 else q;
    var t := s + [c];
    forall j | j < limit + 1 && Ends(p, t, j)
      ensures j <= r
    {
      if 0 < j { EndsStep(p, s, c, j); }
    }
    if 0 < r { EndsStep(p, s, c, r); }
  }

  /** An occurrence of `p` that ends with `s` is the whole of `p` ending `s`. */
  lemma OccursEnds(p: Bytes, text: Bytes, i: int, j: int)
    requires 0 <= i <= |text| && j + |p| == i
    ensures OccursAt(text, p, j) <==> Ends(p, text[..i], |p|)
  {
  }

  lemma MatchStart(p: Bytes)
    requires 0 < |p|
    ensures Longest(p, [], |p|, 0)
  {
  }

  /** Whether the whole pattern ends where `i` bytes have been read. */
  lemma EndsWhole(p: Bytes, text: Bytes, i: int, q: int)
    requires 0 <= i <= |text| && 0 < |p| && Longest(p, text[..i], |p| + 1, q)
    ensures OccursAt(text, p, i - |p|) <==> q == |p|
    ensures q < |p| ==> Longest(p, text[..i], |p|, q)
  {
    OccursEnds(p, text, i, i - |p|);
  }

  /** struct kmppat. */
  class KmpPat {
    var pat: Bytes
    var skips: array<nat>
    /** The byte comparisons of kmp_pinit. */
    ghost var spent: nat

    ghost predicate Valid()
      reads this, skips
    {
      0 < |pat| <= skips.Length && Table(pat, skips[..], |pat|)
    }

    /** kmp_pinit: fills the first `|pat|` entries of `skips` and no other, in time linear in the pattern. */
    constructor (pat: Bytes, skips: array<nat>)
      requires 0 < |pat| <= skips.Length
      modifies skips
      ensures Valid() && this.pat == pat && this.skips == skips
      ensures skips[|pat|..] == old(skips[|pat|..])
      ensures spent <= 3 * (|pat| - 1)
    {
      this.pat := pat;
      this.skips := skips;
      spent := 0;
      new;
      skips[0] := 0;
      var k: nat := 0;
      var q := 1;
      while q < |pat|
        invariant 1 <= q <= |pat| && Table(pat, skips[..], q) && k == skips[q - 1]
        invariant spent + k <= 3 * (q - 1)
        invariant this.pat == pat && this.skips == skips && skips[|pat|..] == old(skips[|pat|..])
      {
        ghost var table, cost := skips[..], 0;
        k, cost := Fall(pat, skips, pat[..q], pat[q], q, k);
        spent := spent + cost;
        assert pat[..q + 1] == pat[..q] + [pat[q]];
        if pat[k] == pat[q] {
          k := k + 1;
        }
        skips[q] := k;
        assert skips[..] == table[q := k];
        q := q + 1;
      }
    }

    /**
     * The inner loop of both functions: fall back while `c` does not continue the prefix of length `q`.
     * `comps` counts the byte comparisons, with the one that follows the loop.
     */
    static method Fall(pat: Bytes, skips: array<nat>, ghost s: Bytes, c: Byte, ghost limit: int, q: nat)
      returns (r: nat, ghost comps: nat)
      requires q < |pat| && q < limit && Table(pat, skips[..], q) && Longest(pat, s, limit, q)
      ensures r <= q && (r == 0 || pat[r] == c)
      ensures comps + r <= q + 2
      ensures Longest(pat, s + [c], limit + 1, if pat[r] == c then r + 1 else r)
    {
      r, comps := q, 1;
      while r > 0 && pat[r] != c
        invariant 0 <= r <= q && Ends(pat, s, r) && Candidate(pat, s, c, limit, r)
        invariant comps + r <= q + 1
      {
        FallBack(pat, s, c, limit, r, skips[r - 1]);
        r, comps := skips[r - 1], comps + 1;
      }
      comps := if r > 0 then comps + 1 else comps;
      Advance(pat, s, c, limit, r);
    }

    /** kmp_match. `comps` counts byte comparisons: linear in the text alone. */
    method Match(str: Bytes) returns (found: bool, loc: nat, ghost comps: nat)
      requires Valid()
      ensures found <==> Occurs(str, pat)
      ensures found ==> Leftmost(str, pat, loc)
      ensures comps <= 3 * |str|
    {
      hide Longest, Ends;
      MatchStart(pat);
      assert str[..0] == [];
      var i, q: nat := 0, 0;
      loc, comps := 0, 0;
      while i < |str|
        invariant 0 <= i <= |str| && q < |pat| && Longest(pat, str[..i], |pat|, q)
        invariant comps + q <= 3 * i
        invariant forall j :: OccursAt(str, pat, j) ==> i < j + |pat|
      {
        ghost var cost;
        q, cost := Fall(pat, skips, str[..i], str[i], |pat|, q);
        comps := comps + cost;
        assert str[..i + 1] == str[..i] + [str[i]];
        if pat[q] == str[i] {
          q := q + 1;
        }
        EndsWhole(pat, str, i + 1, q);
        i := i + 1;
        if q == |pat| {
          return true, i - |pat|, comps;
        }
      }
      found := false;
    }
  }
}
