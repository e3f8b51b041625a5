/**
 * The UTF-8 half of src/str.c: the 31-bit form of section 2 of RFC 2279, with one to six bytes a character. Bytes and
 * values are numbers, and masks and shifts are written as quotients and remainders.
 */
module Utf8 {

  const INT_MAX := 0x7FFF_FFFF

  type Byte = x: int | 0 <= x < 0x100 witness 0

  /** A value of a 32-bit `ulong`. */
  type Char = x: int | 0 <= x < 0x1_0000_0000 witness 0

  type Bytes = seq<Byte>

  // ----- one character -----

  /** utf8_lentab: the length a first byte tells; -1 for bytes that are none. */
  function NBytes(c: Byte): int {
    if c < 0x80 then 1 else if c < 0xC0 then -1 else if c < 0xE0 then 2 else if c < 0xF0 then 3
    else if c < 0xF8 then 4 else if c < 0xFC then 5 else if c < 0xFE then 6 else -1
  }

  /** `(c & 0xC0) == 0x80` */
  predicate Follows(c: Byte) {
    c / 64 == 2
  }

  /** The checks of utf8_validate_char against encodings that are longer than they need to be. */
  predicate Overlong(s: Bytes)
    requires |s| > 1
  {
    match NBytes(s[0])
    case 2 => s[0] / 2 == 0xC0 / 2
    case 3 => s[0] == 0xE0 && s[1] / 32 == 0x80 / 32
    case 4 => s[0] == 0xF0 && s[1] / 16 == 0x80 / 16
    case 5 => s[0] == 0xF8 && s[1] / 8 == 0x80 / 8
    case 6 => s[0] == 0xFC && s[1] / 4 == 0x80 / 4
    case _ => false
  }

  /** The bytes have the shape of a character: a first byte and as many others as it tells. */
  predicate Shaped(s: Bytes) {
    s != [] && NBytes(s[0]) == |s| && forall i :: 0 < i < |s| ==> Follows(s[i])
  }

  /** What utf8_validate_char tells of a string that is not empty: the length of the first character, or -1. */
  function CharLen(s: Bytes): (n: int)
    requires s != []
    ensures n == -1 || (1 <= n <= |s| && n <= 6 && Shaped(s[..n]))
  {
    var n := NBytes(s[0]);
    if n < 0 || n > |s| || !(forall i :: 0 < i < n ==> Follows(s[i])) || (n > 1 && Overlong(s)) then -1 else n
  }

  /** utf8_validate_char, with the length of the string. */
  method ValidateChar(str: Bytes) returns (nb: int)
    requires str != []
    ensures nb == CharLen(str)
    ensures nb == -1 <==> forall n :: 1 <= n <= |str| ==> !Shortest(str[..n])
    ensures nb != -1 ==> 1 <= nb <= |str| && Shortest(str[..nb])
  {
    Accepted(str);
    nb := NBytes(str[0]);
    if nb < 0 || nb > |str| {
      return -1;
    }
    var i := 1;
    while i < nb
      invariant 1 <= i <= nb && forall k :: 0 < k < i ==> Follows(str[k])
    {
      if !Follows(str[i]) {
        return -1;
      }
      i := i + 1;
    }
    if nb > 1 && Overlong(str) {
      return -1;
    }
  }

  // ----- six bits a byte -----

  /** The bits of a byte that follows. */
  function Low(c: Byte): int {
    c % 64
  }

  /** `h` with the bits of the bytes behind it. */
  function Joined(h: nat, t: Bytes): nat
    decreases |t|
  {
    if t == [] then h else Joined(h * 64 + Low(t[0]), t[1..])
  }

  /** `v >> (6 * k)` */
  function Over(v: nat, k: nat): nat {
    if k == 0 then v else Over(v, k - 1) / 64
  }

  /** The last `k` groups of six bits, as bytes that follow. */
  function Tail(v: nat, k: nat): (t: Bytes)
    ensures |t| == k && forall i :: 0 <= i < k ==> Follows(t[i])
  {
    if k == 0 then [] else [0x80 + Over(v, k - 1) % 64] + Tail(v, k - 1)
  }

  lemma {:induction false} JoinedTail(v: nat, k: nat)
    ensures Joined(Over(v, k), Tail(v, k)) == v
  {
    if k > 0 {
      JoinedTail(v, k - 1);
      assert Tail(v, k)[1..] == Tail(v, k - 1);
    }
  }

  lemma {:induction false} TailJoined(h: nat, t: Bytes)
    requires forall i :: 0 <= i < |t| ==> Follows(t[i])
    ensures Tail(Joined(h, t), |t|) == t && Over(Joined(h, t), |t|) == h
    decreases |t|
  {
    if t != [] {
      TailJoined(h * 64 + Low(t[0]), t[1..]);
      assert t == [t[0]] + t[1..];
    }
  }

  /** `1 << (6 * k)` */
  function Unit(k: nat): nat {
    if k == 0 then 1 else 64 * Unit(k - 1)
  }

  /** The shifts in utf8_encode. */
  lemma Overs(v: nat)
    ensures Over(v, 1) == v / 64 && Over(v, 2) == v / 0x1000 && Over(v, 3) == v / 0x4_0000
    ensures Over(v, 4) == v / 0x100_0000 && Over(v, 5) == v / 0x4000_0000
  {
    assert Over(v, 1) == v / 64;
    assert Over(v, 2) == Over(v, 1) / 64;
    assert Over(v, 3) == Over(v, 2) / 64;
    assert Over(v, 4) == Over(v, 3) / 64;
    assert Over(v, 5) == Over(v, 4) / 64;
  }

  // ----- encoding and decoding -----

  /** How many values the first byte of `n` has room for, as the masks of utf8_cdtab have it. */
  function Room(n: int): int
    requires 1 <= n <= 6
  {
    if n == 1 then 128 else if n == 2 then 32 else if n == 3 then 16 else if n == 4 then 8 else if n == 5 then 4 else 2
  }

  /** The bits of a first byte that tell the length. */
  function Mark(n: int): (m: Byte)
    requires 1 <= n <= 6
    ensures m + Room(n) <= 0x100 && m % Room(n) == 0 && forall x: Byte :: m <= x < m + Room(n) <==> NBytes(x) == n
  {
    if n == 1 then 0 else if n == 2 then 0xC0 else if n == 3 then 0xE0 else if n == 4 then 0xF0 else if n == 5 then 0xF8 else 0xFC
  }

  /** utf8_enc_len */
  function EncLen(v: Char): (n: int)
    ensures n == -1 || 1 <= n <= 6
    ensures n == -1 <==> v >= 0x8000_0000
  {
    if v >= 0x8000_0000 then -1
    else if v < 0x80 then 1
    else if v < 0x800 then 2
    else if v < 0x1_0000 then 3
    else if v < 0x20_0000 then 4
    else if v < 0x400_0000 then 5
    else 6
  }

  /** The length is the least one whose first byte has room for the value. */
  lemma Fits(v: Char, n: int)
    requires 1 <= n <= 6 && EncLen(v) > 0
    ensures Over(v, n - 1) < Room(n) <==> EncLen(v) <= n
  {
    Overs(v);
  }

  lemma Lead(n: int, x: int)
    requires 1 <= n <= 6 && 0 <= x < Room(n)
    ensures (Mark(n) + x) % Room(n) == x
  {
  }

  lemma LeadOf(c: Byte)
    requires NBytes(c) > 0
    ensures c == Mark(NBytes(c)) + c % Room(NBytes(c)) && c % Room(NBytes(c)) < Room(NBytes(c))
  {
  }

  /** The encoding of a value in `n` bytes. */
  function Encoded(v: Char, n: int): (s: Bytes)
    requires 1 <= n <= 6 && Over(v, n - 1) < Room(n)
    ensures Shaped(s) && |s| == n
  {
    [Mark(n) + Over(v, n - 1)] + Tail(v, n - 1)
  }

  /** utf8_encode, as the bytes it writes. */
  function EncodeBytes(v: Char, enclen: int): Bytes
    requires 1 <= enclen <= 6 && EncLen(v) == enclen
  {
    match enclen
    case 1 => [v]
    case 2 => [0xC0 + v / 64 % 32, 0x80 + v % 64]
    case 3 => [0xE0 + v / 0x1000 % 16, 0x80 + v / 64 % 64, 0x80 + v % 64]
    case 4 => [0xF0 + v / 0x4_0000 % 8, 0x80 + v / 0x1000 % 64, 0x80 + v / 64 % 64, 0x80 + v % 64]
    case 5 => [0xF8 + v / 0x100_0000 % 4, 0x80 + v / 0x4_0000 % 64, 0x80 + v / 0x1000 % 64, 0x80 + v / 64 % 64, 0x80 + v % 64]
    case _ => [0xFC + v / 0x4000_0000 % 2, 0x80 + v / 0x100_0000 % 64, 0x80 + v / 0x4_0000 % 64, 0x80 + v / 0x1000 % 64, 0x80 + v / 64 % 64, 0x80 + v % 64]
  }

  lemma Tails(v: nat, k: nat)
    requires k <= 5
    ensures Tail(v, k) == match k
      case 0 => []
      case 1 => [0x80 + v % 64]
      case 2 => [0x80 + v / 64 % 64, 0x80 + v % 64]
      case 3 => [0x80 + v / 0x1000 % 64, 0x80 + v / 64 % 64, 0x80 + v % 64]
      case 4 => [0x80 + v / 0x4_0000 % 64, 0x80 + v / 0x1000 % 64, 0x80 + v / 64 % 64, 0x80 + v % 64]
      case _ => [0x80 + v / 0x100_0000 % 64, 0x80 + v / 0x4_0000 % 64, 0x80 + v / 0x1000 % 64, 0x80 + v / 64 % 64, 0x80 + v % 64]
  {
    Overs(v);
    if k > 0 { Tails(v, k - 1); }
  }

  lemma EncodeIs(v: Char)
    requires EncLen(v) > 0
    ensures var n := EncLen(v); Over(v, n - 1) < Room(n) && EncodeBytes(v, n) == Encoded(v, n)
  {
    hide Tail, Over, Mark, EncLen;
    var n := EncLen(v);
    Fits(v, n);
    Overs(v);
    OverNone(v);
    Tails(v, n - 1);
    Marks();
    FirstBits(v);
  }

  /** The mask in front of the first byte takes nothing away. */
  lemma FirstBits(v: Char)
    requires EncLen(v) > 0
    ensures match EncLen(v)
      case 2 => v / 64 % 32 == v / 64
      case 3 => v / 0x1000 % 16 == v / 0x1000
      case 4 => v / 0x4_0000 % 8 == v / 0x4_0000
      case 5 => v / 0x100_0000 % 4 == v / 0x100_0000
      case 6 => v / 0x4000_0000 % 2 == v / 0x4000_0000
      case _ => true
  {
  }

  lemma Marks()
    ensures Mark(1) == 0 && Mark(2) == 0xC0 && Mark(3) == 0xE0 && Mark(4) == 0xF0 && Mark(5) == 0xF8 && Mark(6) == 0xFC
  {
  }

  lemma OverNone(v: nat)
    ensures Over(v, 0) == v
  {
  }

  /** The value of a sequence that has the shape of a character. */
  function Value(s: Bytes): (v: nat)
    requires Shaped(s)
  {
    Joined(s[0] % Room(|s|), s[1..])
  }

  lemma ValueOf(v: Char, n: int)
    requires 1 <= n <= 6 && Over(v, n - 1) < Room(n)
    ensures Value(Encoded(v, n)) == v
  {
    hide Room, Mark, Shaped, Over;
    Lead(n, Over(v, n - 1));
    JoinedTail(v, n - 1);
    assert Encoded(v, n)[1..] == Tail(v, n - 1);
  }

  lemma EncodedValue(s: Bytes)
    requires Shaped(s)
    ensures Value(s) < 0x8000_0000 && Over(Value(s), |s| - 1) < Room(|s|) && Encoded(Value(s), |s|) == s
  {
    hide Mark, Follows;
    LeadOf(s[0]);
    TailJoined(s[0] % Room(|s|), s[1..]);
    Overs(Value(s));
    assert s == [s[0]] + s[1..];
  }

  /** Among the sequences that have the shape of a character the rejected ones are those that could be shorter. */
  lemma OverlongIs(s: Bytes)
    requires Shaped(s)
    ensures Value(s) < 0x8000_0000 && 1 <= EncLen(Value(s)) <= |s|
    ensures CharLen(s) == |s| <==> EncLen(Value(s)) == |s|
  {
    var v, n := Value(s), |s|;
    EncodedValue(s);
    Fits(v, n);
    if n > 1 {
      Fits(v, n - 1);
      TailJoined(s[0] % Room(n) * 64 + Low(s[1]), s[2..]);
      assert s[1..][1..] == s[2..];
    }
  }

  // ----- strings -----

  predicate Encodable(vs: seq<Char>) {
    forall i :: 0 <= i < |vs| ==> EncLen(vs[i]) > 0
  }

  function Encoding(v: Char): (s: Bytes)
    requires EncLen(v) > 0
    ensures |s| == EncLen(v) && CharLen(s) == |s| && Value(s) == v
  {
    Fits(v, EncLen(v));
    ValueOf(v, EncLen(v));
    OverlongIs(Encoded(v, EncLen(v)));
    Encoded(v, EncLen(v))
  }

  function Encode(vs: seq<Char>): Bytes
    requires Encodable(vs)
  {
    if vs == [] then [] else Encoding(vs[0]) + Encode(vs[1..])
  }

  datatype Decoding = Decoded(chars: seq<Char>) | Malformed

  function Decode(s: Bytes): Decoding {
    if s == [] then Decoded([])
    else
      var n := CharLen(s);
      if n < 0 then Malformed
      else
        EncodedValue(s[..n]);
        var rest := Decode(s[n..]);
        if rest.Malformed? then Malformed else Decoded([Value(s[..n])] + rest.chars)
  }

  lemma CharLenBefore(a: Bytes, b: Bytes)
    requires a != [] && CharLen(a) == |a|
    ensures CharLen(a + b) == |a|
  {
    assert forall i :: 0 <= i < |a| ==> (a + b)[i] == a[i];
  }

  lemma Accepted(s: Bytes)
    requires s != []
    ensures CharLen(s) == -1 <==> forall n :: 1 <= n <= |s| ==> !Shortest(s[..n])
    ensures CharLen(s) != -1 ==> 1 <= CharLen(s) <= |s| && Shortest(s[..CharLen(s)])
  {
    hide CharLen, Shortest;
    forall n | 1 <= n <= |s|
      ensures CharLen(s) == n <==> Shortest(s[..n])
    {
      AcceptIs(s, n);
    }
  }

  /** The bytes are the shortest encoding of a value. */
  predicate Shortest(s: Bytes) {
    Shaped(s) && (EncodedValue(s); EncLen(Value(s)) == |s|)
  }

  lemma CharLenPart(s: Bytes, n: nat)
    requires 1 <= n <= |s| && NBytes(s[0]) == n
    ensures CharLen(s) == CharLen(s[..n])
  {
    var p := s[..n];
    assert p[0] == s[0] && forall i :: 0 < i < n ==> p[i] == s[i];
  }

  /** A character is accepted at the front of a string iff it is there as a whole, in its shortest encoding. */
  lemma AcceptIs(s: Bytes, n: nat)
    requires 1 <= n <= |s|
    ensures CharLen(s) == n <==> Shortest(s[..n])
  {
    hide Overlong, Value, EncLen, Follows;
    var p := s[..n];
    assert p[0] == s[0];
    if NBytes(s[0]) == n { CharLenPart(s, n); }
    if Shaped(p) { OverlongIs(p); }
  }

  /** The first example in section 4 of RFC 2279. */
  lemma Example()
    ensures EncodeBytes(0x41, 1) == [0x41] && EncodeBytes(0x2262, 3) == [0xE2, 0x89, 0xA2]
    ensures EncodeBytes(0x391, 2) == [0xCE, 0x91] && EncodeBytes(0x2E, 1) == [0x2E]
    ensures Encode([0x41, 0x2262, 0x391, 0x2E]) == [0x41, 0xE2, 0x89, 0xA2, 0xCE, 0x91, 0x2E]
  {
    hide Encode, Encoding, Encoded, Encodable;
    Known(0x41, [0x41]);
    Known(0x2262, [0xE2, 0x89, 0xA2]);
    Known(0x391, [0xCE, 0x91]);
    Known(0x2E, [0x2E]);
    var d, c, b := [0x2E], [0x391, 0x2E], [0x2262, 0x391, 0x2E];
    assert [0x41, 0x2262, 0x391, 0x2E] == [0x41] + b && b == [0x2262] + c && c == [0x391] + d && d == [0x2E] + [];
    EncodeNothing();
    EncodeAll(0x2E, []);
    EncodeAll(0x391, d);
    EncodeAll(0x2262, c);
    EncodeAll(0x41, b);
  }

  lemma Known(v: Char, s: Bytes)
    requires EncLen(v) > 0 && s == EncodeBytes(v, EncLen(v))
    ensures Encoding(v) == s
  {
    EncodeIs(v);
  }

  lemma EncodeAll(v: Char, vs: seq<Char>)
    requires EncLen(v) > 0 && Encodable(vs)
    ensures Encodable([v] + vs) && Encode([v] + vs) == Encoding(v) + Encode(vs)
  {
    hide Encoding;
    assert ([v] + vs)[1..] == vs;
  }

  lemma EncodeNothing()
    ensures Encodable([]) && Encode([]) == []
  {
  }

  /** Decoding gives back what was encoded. */
  lemma {:induction false} DecodeEncode(vs: seq<Char>)
    requires Encodable(vs)
    ensures Decode(Encode(vs)) == Decoded(vs)
  {
    hide CharLen, Value, EncLen, Encoding, Decode;
    if vs == [] {
      EncodeNone();
    } else {
      DecodeEncode(vs[1..]);
      DecodeWhole(vs[0], Encode(vs[1..]));
      assert vs == [vs[0]] + vs[1..];
    }
  }

  /** A character and what follows. */
  lemma DecodeWhole(v: Char, b: Bytes)
    requires EncLen(v) > 0 && Decode(b).Decoded?
    ensures Decode(Encoding(v) + b) == Decoded([v] + Decode(b).chars)
  {
    hide CharLen, Value, EncLen;
    var a := Encoding(v);
    CharLenBefore(a, b);
    assert (a + b)[..|a|] == a && (a + b)[|a|..] == b;
  }

  /** Whatever can be decoded is the encoding of what it decodes to. */
  lemma {:induction false} EncodeDecode(s: Bytes)
    requires Decode(s).Decoded?
    ensures IsEncoding(Decode(s).chars, s)
    decreases |s|
  {
    hide Encode, EncLen, Encoding, Value, CharLen, Decode, IsEncoding, Encodable;
    if s == [] {
      EncodeNone();
    } else {
      DecodeFirst(s);
      EncodeDecode(s[CharLen(s)..]);
      EncodeFirst(s);
    }
  }

  predicate IsEncoding(vs: seq<Char>, s: Bytes) {
    Encodable(vs) && Encode(vs) == s
  }

  lemma EncodeFirst(s: Bytes)
    requires s != [] && Decode(s).Decoded? && CharLen(s) > 0 && Decode(s[CharLen(s)..]).Decoded?
    requires IsEncoding(Decode(s[CharLen(s)..]).chars, s[CharLen(s)..])
    ensures IsEncoding(Decode(s).chars, s)
  {
    hide Encode, EncLen, Encoding, Value, CharLen, Decode;
    var n := CharLen(s);
    DecodeFirst(s);
    FirstChar(s);
    EncodeMore(Value(s[..n]), Decode(s[n..]).chars);
    assert s == s[..n] + s[n..];
  }

  lemma EncodeNone()
    ensures Decode([]) == Decoded([]) && IsEncoding([], [])
  {
  }

  lemma DecodeFirst(s: Bytes)
    requires s != [] && Decode(s).Decoded?
    ensures CharLen(s) > 0 && Value(s[..CharLen(s)]) < 0x8000_0000 && Decode(s[CharLen(s)..]).Decoded?
    ensures Decode(s).chars == [Value(s[..CharLen(s)])] + Decode(s[CharLen(s)..]).chars
  {
    EncodedValue(s[..CharLen(s)]);
  }

  lemma EncodeMore(v: Char, vs: seq<Char>)
    requires EncLen(v) > 0 && Encodable(vs)
    ensures Encodable([v] + vs) && Encode([v] + vs) == Encoding(v) + Encode(vs)
  {
    assert ([v] + vs)[1..] == vs;
  }

  lemma FirstChar(s: Bytes)
    requires s != [] && CharLen(s) > 0
    ensures var a := s[..CharLen(s)]; Value(a) < 0x8000_0000 && EncLen(Value(a)) == |a| && Encoding(Value(a)) == a
  {
    var a := s[..CharLen(s)];
    assert CharLen(a) == |a|;
    OverlongIs(a);
    EncodedValue(a);
  }

  // ----- the converters -----

  /** The value of a character in utf8_to_utf32. */
  method CharValue(src: Bytes, clen: int) returns (v: int)
    requires 1 <= clen <= |src| && Shaped(src[..clen])
    ensures v == Value(src[..clen])
  {
    ghost var h: nat := src[0] % Room(clen);
    v := src[0] % Room(clen) * Unit(clen - 1);
    var i := 1;
    assert src[..clen][1..] == src[1..clen];
    hide Value, Room, Joined, Unit;
    while i < clen
      invariant 1 <= i <= clen && v == h * Unit(clen - i) && Joined(h, src[i..clen]) == Value(src[..clen])
    {
      ValueStep(h, src[i..clen]);
      assert src[i..clen][1..] == src[i + 1..clen];
      v := v + Low(src[i]) * Unit(clen - 1 - i);
      h := h * 64 + Low(src[i]);
      i := i + 1;
    }
    assert src[i..clen] == [];
    ValueDone(h);
  }

  lemma ValueStep(h: nat, t: Bytes)
    requires t != []
    ensures Joined(h, t) == Joined(h * 64 + Low(t[0]), t[1..])
    ensures h * Unit(|t|) + Low(t[0]) * Unit(|t| - 1) == (h * 64 + Low(t[0])) * Unit(|t| - 1)
  {
    var u, c := Unit(|t| - 1), Low(t[0]);
    assert h * (64 * u) == (h * 64) * u;
  }

  lemma ValueDone(h: nat)
    ensures h * Unit(0) == h && Joined(h, []) == h
  {
  }

  /** A `size_t` as an `int`: the lowest 32 bits, with a sign. */
  function AsInt(n: nat): int {
    var low := n % 0x1_0000_0000;
    if low < 0x8000_0000 then low else low - 0x1_0000_0000
  }

  /** The count that is reported is right for fewer than 2^31 characters, and for no others. */
  lemma CountRight(n: nat)
    ensures AsInt(n) == n <==> n < 0x8000_0000
  {
  }

  /** For some of the others it is the mark of malformed input. */
  lemma CountMistaken(n: nat)
    ensures AsInt(n) == -1 <==> n % 0x1_0000_0000 == 0xFFFF_FFFF
  {
  }

  /** utf8_to_utf32: the values go to `dst` as far as there is room, and all of them are counted. */
  method ToUtf32(dst: array<Char>, src: Bytes) returns (nconv: int)
    modifies dst
    ensures nconv == if Decode(src).Malformed? then -1 else AsInt(|Decode(src).chars|)
    ensures Decode(src).Decoded? ==> forall i :: 0 <= i < dst.Length ==> dst[i] == if i < |Decode(src).chars| then Decode(src).chars[i] else old(dst[i])
  {
    hide CharLen, Value, Shaped;
    var off := 0;
    var n: nat := 0;
    ghost var done: seq<Char> := [];
    while off < |src|
      invariant off <= |src| && n == |done|
      invariant Decode(src) == Prepended(done, Decode(src[off..]))
      invariant forall i :: 0 <= i < dst.Length ==> dst[i] == if i < n then done[i] else old(dst[i])
    {
      ghost var rest := src[off..];
      var clen := ValidateChar(src[off..]);
      if clen < 0 {
        return -1;
      }
      FirstChar(rest);
      var v := CharValue(src[off..], clen);
      if n < dst.Length {
        dst[n] := v;
      }
      assert rest[clen..] == src[off + clen..];
      DecodeMore(rest, done, v);
      done := done + [v];
      n := n + 1;
      off := off + clen;
    }
    return AsInt(n);
  }

  lemma DecodeMore(s: Bytes, done: seq<Char>, v: Char)
    requires s != [] && CharLen(s) > 0 && v == Value(s[..CharLen(s)])
    ensures Prepended(done, Decode(s)) == Prepended(done + [v], Decode(s[CharLen(s)..]))
  {
  }

  function Prepended(vs: seq<Char>, d: Decoding): Decoding {
    if d.Malformed? then Malformed else Decoded(vs + d.chars)
  }

  /** What utf32_to_utf8 writes: the characters that there is still room for. */
  function Written(vs: seq<Char>, room: nat): (s: Bytes)
    requires Encodable(vs)
    ensures |s| <= room
  {
    if vs == [] then []
    else
      var s := Encoding(vs[0]);
      if |s| <= room then s + Written(vs[1..], room - |s|) else Written(vs[1..], room)
  }

  /** That is the encoding when there is room for it, and else something else. */
  lemma {:induction false} AllWritten(vs: seq<Char>, room: nat)
    requires Encodable(vs)
    ensures Written(vs, room) == Encode(vs) <==> |Encode(vs)| <= room
  {
    if vs != [] && |Encode(vs)| <= room { AllWritten(vs[1..], room - |Encoding(vs[0])|); }
  }

  /** With too little room a later character can be written after one that was left out. */
  lemma LeftOut()
    ensures Encodable([0x80, 0x41]) && Written([0x80, 0x41], 1) == [0x41] && Encode([0x80, 0x41]) == [0xC2, 0x80, 0x41]
  {
  }

  lemma EncodeStep(vs: seq<Char>)
    requires Encodable(vs) && vs != []
    ensures Encode(vs) == Encoding(vs[0]) + Encode(vs[1..])
  {
  }

  lemma {:induction false} EncodeBoth(a: seq<Char>, b: seq<Char>)
    requires Encodable(a) && Encodable(b)
    ensures Encodable(a + b) && Encode(a + b) == Encode(a) + Encode(b)
    decreases |a|
  {
    hide Encode, Encoding, EncLen;
    var c := a + b;
    if a == [] {
      WrittenNone(0);
      assert c == b;
    } else {
      assert c[1..] == a[1..] + b && c[0] == a[0];
      EncodeBoth(a[1..], b);
      EncodeStep(a);
      EncodeStep(c);
    }
  }

  lemma EncodeLast(vs: seq<Char>, v: Char)
    requires Encodable(vs) && EncLen(v) > 0
    ensures Encodable(vs + [v]) && Encode(vs + [v]) == Encode(vs) + Encoding(v)
  {
    EncodeBoth(vs, [v]);
    assert Encode([v]) == Encoding(v) + Encode([v][1..]);
  }

  lemma WrittenStep(vs: seq<Char>, room: nat)
    requires Encodable(vs) && vs != []
    ensures var s := Encoding(vs[0]);
      Written(vs, room) == if |s| <= room then s + Written(vs[1..], room - |s|) else Written(vs[1..], room)
  {
  }

  lemma {:induction false} WrittenLast(vs: seq<Char>, v: Char, room: nat)
    requires Encodable(vs) && EncLen(v) > 0
    ensures Encodable(vs + [v])
    ensures Written(vs + [v], room) == Written(vs, room) + if EncLen(v) <= room - |Written(vs, room)| then Encoding(v) else []
    decreases |vs|
  {
    hide Written, Encoding, EncLen;
    var c := vs + [v];
    if vs == [] {
      WrittenStep(c, room);
      WrittenNone(room);
      assert c[1..] == [];
      WrittenNone(if EncLen(v) <= room then room - EncLen(v) else room);
    } else {
      var n := |Encoding(vs[0])|;
      assert c[1..] == vs[1..] + [v] && c[0] == vs[0];
      WrittenLast(vs[1..], v, if n <= room then room - n else room);
      WrittenStep(vs, room);
      WrittenStep(c, room);
    }
  }

  lemma WrittenNone(room: nat)
    ensures Written([], room) == [] && Encode([]) == []
  {
  }

  /** utf8_encode */
  method EncodeAt(dp: array<Byte>, at: nat, v: Char, enclen: int)
    requires EncLen(v) == enclen > 0 && at + enclen <= dp.Length
    modifies dp
    ensures forall j :: 0 <= j < dp.Length ==> dp[j] == if at <= j < at + enclen then EncodeBytes(v, enclen)[j - at] else old(dp[j])
  {
    if enclen == 1 {
      dp[at] := v;
    } else if enclen == 2 {
      dp[at] := 0xC0 + v / 64 % 32;
      dp[at + 1] := 0x80 + v % 64;
    } else if enclen == 3 {
      dp[at] := 0xE0 + v / 0x1000 % 16;
      dp[at + 1] := 0x80 + v / 64 % 64;
      dp[at + 2] := 0x80 + v % 64;
    } else if enclen == 4 {
      dp[at] := 0xF0 + v / 0x4_0000 % 8;
      dp[at + 1] := 0x80 + v / 0x1000 % 64;
      dp[at + 2] := 0x80 + v / 64 % 64;
      dp[at + 3] := 0x80 + v % 64;
    } else if enclen == 5 {
      dp[at] := 0xF8 + v / 0x100_0000 % 4;
      dp[at + 1] := 0x80 + v / 0x4_0000 % 64;
      dp[at + 2] := 0x80 + v / 0x1000 % 64;
      dp[at + 3] := 0x80 + v / 64 % 64;
      dp[at + 4] := 0x80 + v % 64;
    } else {
      dp[at] := 0xFC + v / 0x4000_0000 % 2;
      dp[at + 1] := 0x80 + v / 0x100_0000 % 64;
      dp[at + 2] := 0x80 + v / 0x4_0000 % 64;
      dp[at + 3] := 0x80 + v / 0x1000 % 64;
      dp[at + 4] := 0x80 + v / 64 % 64;
      dp[at + 5] := 0x80 + v % 64;
    }
  }

  lemma TooLong(vs: seq<Char>, i: nat)
    requires i <= |vs| && Encodable(vs[..i])
    ensures Encodable(vs) ==> |Encode(vs[..i])| <= |Encode(vs)|
  {
    if Encodable(vs) {
      EncodeBoth(vs[..i], vs[i..]);
      assert vs == vs[..i] + vs[i..];
    }
  }

  /** One character of utf32_to_utf8. */
  method Put(dst: array<Byte>, at: nat, v: Char, enclen: int, ghost w: Bytes, ghost d: Bytes)
    requires EncLen(v) == enclen > 0 && at + enclen <= dst.Length == |d| && |w| == at && dst[..] == w + d[at..]
    modifies dst
    ensures dst[..] == w + Encoding(v) + d[at + enclen..]
  {
    EncodeIs(v);
    hide EncLen, Encoding, Encoded, EncodeBytes;
    ghost var b := EncodeBytes(v, enclen);
    EncodeAt(dst, at, v, enclen);
    ghost var t := w + b + d[at + enclen..];
    forall j | 0 <= j < dst.Length
      ensures dst[..][j] == t[j]
    {
      assert (w + d[at..])[j] == if j < at then w[j] else d[j];
    }
  }

  /** The buffer `b`, which was `d`, after the characters `vs`. */
  ghost predicate Filled(b: Bytes, at: nat, vs: seq<Char>, d: Bytes) {
    Encodable(vs) && |b| == |d| && at == |Written(vs, |d|)| && b == Written(vs, |d|) + d[at..]
  }

  method PutIf(dst: array?<Byte>, at: nat, v: Char, enclen: int, ghost vs: seq<Char>, ghost d: Bytes) returns (after: nat)
    requires EncLen(v) == enclen > 0 && (dst != null ==> Filled(dst[..], at, vs, d))
    modifies dst
    ensures dst != null ==> Filled(dst[..], after, vs + [v], d)
  {
    hide EncLen, Encoding, Written, Encode;
    after := at;
    if dst != null {
      WrittenLast(vs, v, |d|);
      if dst.Length - at >= enclen {
        Put(dst, at, v, enclen, Written(vs, |d|), d);
        after := at + enclen;
      }
    }
  }

  /** utf32_to_utf8; the length of the buffer is what is given as `dlen`. */
  method ToUtf8(dst: array?<Byte>, src: seq<Char>) returns (tlen: int)
    modifies dst
    ensures tlen == if |src| >= INT_MAX || !Encodable(src) || |Encode(src)| > INT_MAX then -1 else |Encode(src)|
    ensures tlen >= 0 && dst != null ==> dst[..] == Written(src, dst.Length) + old(dst[..])[|Written(src, dst.Length)|..]
  {
    hide EncLen, Encoding, Written, Encode;
    tlen := 0;
    if |src| >= INT_MAX {
      return -1;
    }
    var at, i := 0, 0;
    ghost var d := if dst == null then [] else dst[..];
    WrittenNone(|d|);
    assert src[..0] == [];
    while i < |src|
      invariant i <= |src| && Encodable(src[..i]) && tlen == |Encode(src[..i])| <= INT_MAX
      invariant dst != null ==> Filled(dst[..], at, src[..i], d)
    {
      hide Filled;
      var v := src[i];
      var enclen := EncLen(v);
      if enclen < 0 {
        return -1;
      }
      assert src[..i + 1] == src[..i] + [v];
      EncodeLast(src[..i], v);
      at := PutIf(dst, at, v, enclen, src[..i], d);
      if INT_MAX - tlen < enclen {
        TooLong(src, i + 1);
        return -1;
      }
      tlen := tlen + enclen;
      i := i + 1;
    }
    assert src[..i] == src;
  }
}
