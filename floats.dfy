/** The slice of IEEE-754 double arithmetic, as numpy applies it, that decides
    which genes get counted: NaN, the two infinities, a zero divisor and a
    statistic of one value are explicit, while the numeric kernels themselves
    (the natural logarithm of a positive double, the mean and standard deviation
    of two or more finite doubles, and (x - mu) / sd for finite operands and a
    positive sd) are left uninterpreted and passed in as a `Kernels` value.
    Rounding is not modelled: a finite double is a `real`, and signed zero is
    folded into zero. */
module Floats {

  datatype Float = Finite(v: real) | PosInf | NegInf | NaN

  /** What `np.sqrt`, and so a standard deviation, can return: never a negative
      number and never -inf. */
  type Deviation = x: Float | x != NegInf && !(x.Finite? && x.v < 0.0) witness Finite(0.0)

  /** The numeric kernels whose values this model proves nothing about. */
  datatype Kernels = Kernels(
    ln: real -> real,                       // log of a positive finite double
    mean: seq<Float> -> Float,              // mean of two or more finite doubles
    std: seq<Float> -> Deviation,           // population (ddof = 0) deviation of the same
    quotient: (real, real, real) -> Float)  // (x - mu) / sd for finite x, mu and sd > 0

  /** `x > t` on a double: false for NaN and for -inf, true for +inf. */
  predicate Greater(x: Float, t: real)
  {
    match x
    case Finite(v) => v > t
    case PosInf => true
    case _ => false
  }

  /** `np.log` of one double: -inf at zero, NaN below zero and at -inf. */
  function Log(k: Kernels, x: Float): Float
  {
    match x
    case NaN => NaN
    case NegInf => NaN
    case PosInf => PosInf
    case Finite(v) => if v > 0.0 then Finite(k.ln(v)) else if v == 0.0 then NegInf else NaN
  }

  /** The entries `np.nanmean` and `np.nanstd` look at: every one but NaN, in order.
      Infinities are kept. */
  function NonNaN(xs: seq<Float>): (p: seq<Float>)
    ensures |p| <= |xs|
  {
    if xs == [] then []
    else (if xs[0].NaN? then [] else [xs[0]]) + NonNaN(xs[1..])
  }

  /** What is kept is exactly what is not NaN, infinities included. */
  lemma {:induction false} NonNaNMembers(xs: seq<Float>)
    ensures forall x :: x in NonNaN(xs) <==> x in xs && !x.NaN?
  {
    if xs != [] {
      NonNaNMembers(xs[1..]);
      assert xs == [xs[0]] + xs[1..];
    }
  }

  lemma {:induction false} NonNaNConcat(a: seq<Float>, b: seq<Float>)
    ensures NonNaN(a + b) == NonNaN(a) + NonNaN(b)
  {
    if a == [] {
      assert a + b == b;
    } else {
      assert (a + b)[0] == a[0];
      assert (a + b)[1..] == a[1..] + b;
      NonNaNConcat(a[1..], b);
    }
  }

  lemma {:induction false} NonNaNOfNoNaN(xs: seq<Float>)
    requires forall i :: 0 <= i < |xs| ==> !xs[i].NaN?
    ensures NonNaN(xs) == xs
  {
    if xs != [] {
      NonNaNOfNoNaN(xs[1..]);
    }
  }

  /** The mean of a non-empty run of finite doubles: a single value is its own
      mean exactly (x / 1), longer runs go to the kernel. */
  function FiniteMean(k: Kernels, p: seq<Float>): Float
  {
    if |p| == 1 then p[0] else k.mean(p)
  }

  /** The deviation of a non-empty run of finite doubles: exactly 0 for a single
      value (sqrt((x - x)^2)), the kernel for longer runs. */
  function FiniteStd(k: Kernels, p: seq<Float>): Deviation
  {
    if |p| == 1 then Finite(0.0) else k.std(p)
  }

  /** `np.nanmean` of one column: NaN when nothing but NaN is left, an infinity
      when one is present, the mean of the finite entries otherwise. */
  function NanMean(k: Kernels, xs: seq<Float>): Float
  {
    var p := NonNaN(xs);
    if p == [] then NaN
    else if PosInf in p && NegInf in p then NaN
    else if PosInf in p then PosInf
    else if NegInf in p then NegInf
    else FiniteMean(k, p)
  }

  /** `np.nanstd` of one column: NaN when nothing but NaN is left, and NaN as
      soon as an infinity is present (its deviation from the mean is inf - inf). */
  function NanStd(k: Kernels, xs: seq<Float>): Deviation
  {
    var p := NonNaN(xs);
    if p == [] || PosInf in p || NegInf in p then NaN else FiniteStd(k, p)
  }

  /** `-x` on a double. */
  function Negate(x: Float): Float
  {
    match x
    case Finite(v) => Finite(-v)
    case PosInf => NegInf
    case NegInf => PosInf
    case NaN => NaN
  }

  /** `(x - mu) / sd` on doubles, with `sd` a deviation:
      - NaN in any operand gives NaN;
      - finite `x` and `mu`: the kernel quotient when `sd > 0`; over `sd == 0`
        the difference's sign gives +inf or -inf, and 0 / 0 is NaN; over
        `sd == +inf` the result is 0;
      - an infinite difference (inf - inf is NaN) keeps its sign over a finite
        `sd`, zero included, and inf / inf is NaN. */
  function Standardize(k: Kernels, x: Float, mu: Float, sd: Deviation): Float
  {
    if x.NaN? || mu.NaN? || sd.NaN? then NaN
    else if x.Finite? && mu.Finite? then
      match sd
      case Finite(s) =>
        if s > 0.0 then k.quotient(x.v, mu.v, s)
        else if x.v > mu.v then PosInf
        else if x.v < mu.v then NegInf
        else NaN
      case _ => Finite(0.0)
    else
      var diff := if x.Finite? then Negate(mu) else if x == mu then NaN else x;
      if diff.NaN? || !sd.Finite? then NaN else diff
  }
}
