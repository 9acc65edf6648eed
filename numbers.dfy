/** IEEE-754 style numbers and the vector arithmetic the stores perform with
    numpy: finite values are exact reals, and NaN and the two infinities follow
    the IEEE rules for +, *, / and square root. Overflow and rounding are not
    modelled. */
module Numbers {

  datatype Num = Finite(r: real) | NaN | PosInf | NegInf

  function Add(a: Num, b: Num): Num {
    match (a, b)
    case (Finite(x), Finite(y)) => Finite(x + y)
    case (NaN, _) => NaN
    case (_, NaN) => NaN
    case (PosInf, NegInf) => NaN
    case (NegInf, PosInf) => NaN
    case (PosInf, _) => PosInf
    case (_, PosInf) => PosInf
    case _ => NegInf
  }

  /** -1, 0 or 1; meaningful for non-NaN values. */
  function Sign(a: Num): int {
    match a
    case Finite(x) => if x < 0.0 then -1 else if x == 0.0 then 0 else 1
    case PosInf => 1
    case NegInf => -1
    case NaN => 0
  }

  function Mul(a: Num, b: Num): Num {
    if a.NaN? || b.NaN? then NaN
    else if a.Finite? && b.Finite? then Finite(a.r * b.r)
    else if Sign(a) * Sign(b) == 0 then NaN
    else if Sign(a) * Sign(b) > 0 then PosInf
    else NegInf
  }

  /** numpy division of float scalars (a zero divisor gives an infinity or NaN). */
  function Div(a: Num, b: Num): Num {
    if a.NaN? || b.NaN? then NaN
    else if !a.Finite? && !b.Finite? then NaN
    else if !b.Finite? then Finite(0.0)
    else if b.r == 0.0 then (if a.Finite? && a.r == 0.0 then NaN else if Sign(a) > 0 then PosInf else NegInf)
    else if a.Finite? then Finite(a.r / b.r)
    else if Sign(a) * Sign(b) > 0 then PosInf
    else NegInf
  }

  /** One step of Newton's iteration for the square root of x. */
  function NewtonSqrt(x: real, y: real, steps: nat): (r: real)
    requires x > 0.0 && y > 0.0
    ensures r > 0.0
    ensures x == 1.0 && y == 1.0 ==> r == 1.0
    decreases steps
  {
    if steps == 0 then y
    else
      assert x / y > 0.0;
      NewtonSqrt(x, (y + x / y) / 2.0, steps - 1)
  }

  /** The floating-point square root stands for an exact one that Dafny cannot
      compute; what the stores rely on is that it is non-negative, zero
      exactly at zero, and exact at one. */
  function Sqrt(x: real): (r: real)
    requires x >= 0.0
    ensures r >= 0.0
    ensures r == 0.0 <==> x == 0.0
    ensures x == 1.0 ==> r == 1.0
  {
    if x == 0.0 then 0.0 else NewtonSqrt(x, (x + 1.0) / 2.0, 6)
  }

  function NumSqrt(a: Num): Num {
    match a
    case Finite(x) => if x < 0.0 then NaN else Finite(Sqrt(x))
    case PosInf => PosInf
    case _ => NaN
  }

  predicate AllFinite(v: seq<Num>) {
    forall i :: 0 <= i < |v| ==> v[i].Finite?
  }

  predicate HasNaN(v: seq<Num>) {
    exists i :: 0 <= i < |v| && v[i].NaN?
  }

  predicate AllZero(v: seq<Num>) {
    forall i :: 0 <= i < |v| ==> v[i] == Finite(0.0)
  }

  /** The finite components as reals. */
  function Reals(v: seq<Num>): (u: seq<real>)
    requires AllFinite(v)
    ensures |u| == |v|
    ensures forall i :: 0 <= i < |v| ==> u[i] == v[i].r
  {
    seq(|v|, i requires 0 <= i < |v| => v[i].r)
  }

  /** The sum of the squares of the components: NaN as soon as one component is
      NaN, +inf when some component is infinite, otherwise a non-negative real
      that is zero exactly for the zero vector. */
  function SumSquares(v: seq<Num>): (s: Num)
    ensures HasNaN(v) ==> s == NaN
    ensures !HasNaN(v) && !AllFinite(v) ==> s == PosInf
    ensures AllFinite(v) ==> s.Finite? && s.r >= 0.0 && (s.r == 0.0 <==> AllZero(v))
  {
    if v == [] then Finite(0.0)
    else
      var rest := SumSquares(v[1..]);
      ConsFacts(v);
      if v[0].Finite? && rest.Finite? then
        Finite(Square(v[0].r) + rest.r)
      else Add(Mul(v[0], v[0]), rest)
  }

  /** How the three vector predicates split over the first component. */
  lemma ConsFacts(v: seq<Num>)
    requires v != []
    ensures HasNaN(v) <==> v[0].NaN? || HasNaN(v[1..])
    ensures AllFinite(v) <==> v[0].Finite? && AllFinite(v[1..])
    ensures AllZero(v) <==> v[0] == Finite(0.0) && AllZero(v[1..])
  {
    if HasNaN(v[1..]) { var i :| 0 <= i < |v[1..]| && v[1..][i].NaN?; assert v[i + 1].NaN?; }
    if HasNaN(v) && !v[0].NaN? { var i :| 0 <= i < |v| && v[i].NaN?; assert v[1..][i - 1].NaN?; }
    if v[0].Finite? && AllFinite(v[1..]) {
      forall i | 0 <= i < |v| ensures v[i].Finite? { if i > 0 { assert v[i] == v[1..][i - 1]; } }
    }
    if v[0] == Finite(0.0) && AllZero(v[1..]) {
      forall i | 0 <= i < |v| ensures v[i] == Finite(0.0) { if i > 0 { assert v[i] == v[1..][i - 1]; } }
    }
  }

  function PosMul(a: real, b: real): (r: real)
    requires a > 0.0 && b > 0.0
    ensures r > 0.0
  {
    a * b
  }

  /** x * x, with its sign facts stated once. */
  function Square(x: real): (r: real)
    ensures r >= 0.0
    ensures r == 0.0 <==> x == 0.0
    ensures r == x * x
  {
    if x == 0.0 then 0.0 else if x > 0.0 then PosMul(x, x) else PosMul(-x, -x)
  }

  /** `np.linalg.norm`: the square root of the sum of squares. */
  function Norm(v: seq<Num>): (n: Num)
    ensures n.NaN? <==> HasNaN(v)
    ensures n.Finite? <==> AllFinite(v)
    ensures n.Finite? ==> n.r >= 0.0 && (n.r == 0.0 <==> AllZero(v))
  {
    NumSqrt(SumSquares(v))
  }

  /** The guard `norm == 0 or isnan(norm) or isinf(norm)`. */
  predicate Degenerate(n: Num) {
    !n.Finite? || n.r == 0.0
  }

  function Zeros(n: nat): (z: seq<real>)
    ensures |z| == n && forall i :: 0 <= i < n ==> z[i] == 0.0
  {
    seq(n, _ => 0.0)
  }

  /** The "safe normalize" both stores apply: divide by the norm, or store the
      zero vector when the norm is zero, NaN or infinite. The result is zero
      exactly when the input has a non-finite component or is itself zero;
      otherwise each component is the input's divided by a positive norm. */
  function Normalize(v: seq<Num>): (u: seq<real>)
    ensures |u| == |v|
    ensures (forall i :: 0 <= i < |u| ==> u[i] == 0.0) <==> !AllFinite(v) || AllZero(v)
    ensures AllFinite(v) && !AllZero(v) ==>
              Norm(v).r > 0.0 && forall i :: 0 <= i < |u| ==> u[i] == v[i].r / Norm(v).r
  {
    var n := Norm(v);
    if Degenerate(n) then Zeros(|v|)
    else
      var u := seq(|v|, i requires 0 <= i < |v| => v[i].r / n.r);
      assert !AllZero(v);
      var j :| 0 <= j < |v| && v[j] != Finite(0.0);
      assert u[j] != 0.0;
      u
  }

  /** The dot product of two real vectors (`_embeddings @ q.T`, row by row). */
  function DotR(a: seq<real>, b: seq<real>): real
    requires |a| == |b|
  {
    if a == [] then 0.0 else a[0] * b[0] + DotR(a[1..], b[1..])
  }

  /** A zero query vector scores every stored row 0.0. */
  lemma {:induction false} DotRZero(a: seq<real>, b: seq<real>)
    requires |a| == |b|
    requires forall i :: 0 <= i < |b| ==> b[i] == 0.0
    ensures DotR(a, b) == 0.0
  {
    if a != [] {
      DotRZero(a[1..], b[1..]);
    }
  }

  /** `np.dot` of two float vectors of the same length, with IEEE semantics. */
  function Dot(a: seq<Num>, b: seq<Num>): Num
    requires |a| == |b|
  {
    if a == [] then Finite(0.0) else Add(Mul(a[0], b[0]), Dot(a[1..], b[1..]))
  }

  /** On finite vectors the IEEE dot product is the real one. */
  lemma {:induction false} DotFinite(a: seq<Num>, b: seq<Num>)
    requires |a| == |b| && AllFinite(a) && AllFinite(b)
    ensures Dot(a, b) == Finite(DotR(Reals(a), Reals(b)))
  {
    if a != [] {
      assert AllFinite(a[1..]) && AllFinite(b[1..]) by {
        forall i | 0 <= i < |a| - 1 ensures a[1..][i].Finite? && b[1..][i].Finite? {
          assert a[1..][i] == a[i + 1] && b[1..][i] == b[i + 1];
        }
      }
      DotFinite(a[1..], b[1..]);
      assert Reals(a)[1..] == Reals(a[1..]);
      assert Reals(b)[1..] == Reals(b[1..]);
    }
  }
}
