/** Words as sequences of bits, lowest first, with the operators of C on unsigned words of that width. */
module BitWords {

  type Word = seq<bool>

  function And(x: Word, y: Word): (r: Word)
    requires |x| == |y|
    ensures |r| == |x| && forall i :: 0 <= i < |r| ==> r[i] == (x[i] && y[i])
  {
    seq(|x|, i requires 0 <= i < |x| => x[i] && y[i])
  }

  function Or(x: Word, y: Word): (r: Word)
    requires |x| == |y|
    ensures |r| == |x| && forall i :: 0 <= i < |r| ==> r[i] == (x[i] || y[i])
  {
    seq(|x|, i requires 0 <= i < |x| => x[i] || y[i])
  }

  function Xor(x: Word, y: Word): (r: Word)
    requires |x| == |y|
    ensures |r| == |x| && forall i :: 0 <= i < |r| ==> r[i] == (x[i] != y[i])
  {
    seq(|x|, i requires 0 <= i < |x| => x[i] != y[i])
  }

  function Not(x: Word): (r: Word)
    ensures |r| == |x| && forall i :: 0 <= i < |r| ==> r[i] == !x[i]
  {
    seq(|x|, i requires 0 <= i < |x| => !x[i])
  }

  /** `x >> k` */
  function Shr(x: Word, k: nat): (r: Word)
    ensures |r| == |x| && forall i :: 0 <= i < |r| ==> r[i] == (i + k < |x| && x[i + k])
  {
    seq(|x|, i requires 0 <= i < |x| => i + k < |x| && x[i + k])
  }

  /** `x << k` */
  function Shl(x: Word, k: nat): (r: Word)
    ensures |r| == |x| && forall i :: 0 <= i < |r| ==> r[i] == (k <= i && x[i - k])
  {
    seq(|x|, i requires 0 <= i < |x| => k <= i && x[i - k])
  }
}
