/**
 * The value types of the expression algebra of include/pyoptinterface/core.hpp:
 * variable handles, the frozen linear form `ScalarAffineFunction`, the frozen
 * quadratic form `ScalarQuadraticFunction`, and the free `+ - *` operators
 * between them. Coefficients (`CoeffT`, a C++ double) are modelled as `real`.
 *
 * A form denotes a polynomial, given here by its coefficients: `AffineCoef(f, v)`
 * is the coefficient of `x_v` in `f` (the sum of every entry of `f` that names
 * `v`, so repeated entries add up), `QuadraticCoef(q, p)` the coefficient of the
 * monomial `x_i * x_j` for the ordered pair `p = (i, j)`, and `ConstantValue`
 * the constant term. An absent constant (or absent affine part) contributes
 * nothing to the polynomial, but it stays distinct from an explicit zero in
 * the representation.
 */
module Forms {
  import opened Wrappers

  /** `IndexT` (a `uint32_t` in C++); the 32-bit bound is not modelled. */
  type Index = nat

  /** The default threshold below which `canonicalize` drops a coefficient. */
  const COEFTHRESHOLD: real := 1.0e-12

  datatype VariableDomain = Continuous | Integer | Binary | SemiContinuous

  datatype VariableIndex = VariableIndex(index: Index)

  datatype ConstraintType = Linear | Quadratic | SOS1 | SOS2

  datatype ConstraintSense = LessEqual | GreaterEqual | Equal

  /** A constraint handle: the namespace it lives in and its handle there. */
  datatype ConstraintIndex = ConstraintIndex(kind: ConstraintType, index: Index)

  datatype ObjectiveSense = Minimize | Maximize

  /** An unordered pair of variables, the key of one quadratic term. */
  datatype VariablePair = VariablePair(var1: Index, var2: Index) {
    /** The canonical orientation: the smaller index first. */
    predicate Ordered() { var1 <= var2 }
  }

  /** The canonical key of the quadratic term `x_i * x_j`. */
  function MakePair(i: Index, j: Index): (p: VariablePair)
    ensures p.Ordered()
    ensures {p.var1, p.var2} == {i, j}
  {
    if i <= j then VariablePair(i, j) else VariablePair(j, i)
  }

  /** `x_i * x_j` and `x_j * x_i` have the same key, and an ordered key is its own canonical form. */
  lemma MakePairSymmetric(i: Index, j: Index, p: VariablePair)
    ensures MakePair(i, j) == MakePair(j, i)
    ensures p.Ordered() ==> MakePair(p.var1, p.var2) == p
    ensures MakePair(i, j) == p ==> p == VariablePair(i, j) || p == VariablePair(j, i)
  {
  }

  /** A linear form: parallel coefficient and variable sequences and an optional constant. */
  datatype ScalarAffineFunction = ScalarAffineFunction(
    coefficients: seq<real>,
    variables: seq<Index>,
    constant: Option<real>)
  {
    /** The two term sequences are parallel. */
    predicate Valid() { |coefficients| == |variables| }

    /** `size()`: the number of terms, the common length of the two sequences. */
    function Size(): (n: nat)
      ensures Valid() ==> n == |variables|
    {
      |coefficients|
    }
  }

  /** A quadratic form: parallel coefficient and variable-pair sequences and an optional linear part. */
  datatype ScalarQuadraticFunction = ScalarQuadraticFunction(
    coefficients: seq<real>,
    variable1s: seq<Index>,
    variable2s: seq<Index>,
    affinePart: Option<ScalarAffineFunction>)
  {
    predicate Valid() {
      && |coefficients| == |variable1s| == |variable2s|
      && (affinePart.Some? ==> affinePart.value.Valid())
    }

    /** `size()`: the number of quadratic terms. */
    function Size(): (n: nat)
      ensures Valid() ==> n == |variable1s| == |variable2s|
    {
      |coefficients|
    }
  }

  /** Distinct entries: no element occurs twice. */
  predicate Distinct<T(==)>(s: seq<T>) {
    forall i, j :: 0 <= i < j < |s| ==> s[i] != s[j]
  }

  /** Every coefficient multiplied by `s`. */
  function ScaleAll(cs: seq<real>, s: real): (r: seq<real>)
    ensures |r| == |cs|
  {
    if cs == [] then [] else ScaleAll(cs[..|cs| - 1], s) + [cs[|cs| - 1] * s]
  }

  /** `ScaleAll` multiplies each coefficient in place: the i-th result is `cs[i] * s`. */
  lemma {:induction false} ScaleAllElements(cs: seq<real>, s: real)
    ensures forall i :: 0 <= i < |cs| ==> ScaleAll(cs, s)[i] == cs[i] * s
    decreases |cs|
  {
    if cs != [] {
      var n := |cs| - 1;
      ScaleAllElements(cs[..n], s);
      assert forall i :: 0 <= i < n ==> cs[..n][i] == cs[i];
    }
  }

  /** The canonical keys of parallel variable sequences `v1s`, `v2s`. */
  function PairKeys(v1s: seq<Index>, v2s: seq<Index>): (r: seq<VariablePair>)
    requires |v1s| == |v2s|
    ensures |r| == |v1s|
    ensures forall i :: 0 <= i < |r| ==> r[i] == MakePair(v1s[i], v2s[i])
  {
    seq(|v1s|, i requires 0 <= i < |v1s| => MakePair(v1s[i], v2s[i]))
  }

  lemma PairKeysConcat(a1: seq<Index>, a2: seq<Index>, b1: seq<Index>, b2: seq<Index>)
    requires |a1| == |a2| && |b1| == |b2|
    ensures PairKeys(a1 + b1, a2 + b2) == PairKeys(a1, a2) + PairKeys(b1, b2)
  {
    var l, r := PairKeys(a1 + b1, a2 + b2), PairKeys(a1, a2) + PairKeys(b1, b2);
    assert |l| == |r|;
    forall i | 0 <= i < |l| ensures l[i] == r[i] {
      if i < |a1| {
        assert (a1 + b1)[i] == a1[i] && (a2 + b2)[i] == a2[i];
      } else {
        assert (a1 + b1)[i] == b1[i - |a1|] && (a2 + b2)[i] == b2[i - |a1|];
      }
    }
  }

  // ---------------------------------------------------------------------
  // Denotation: the coefficient of every monomial

  /** The value of an absent constant is zero. */
  function ConstantValue(c: Option<real>): real {
    if c.Some? then c.value else 0.0
  }

  /** The sum of the coefficients `cs[i]` whose key `ks[i]` is `k`. */
  function KeySum<K(==)>(cs: seq<real>, ks: seq<K>, k: K): real
    requires |cs| == |ks|
  {
    if cs == [] then 0.0
    else if ks[|ks| - 1] == k then KeySum(cs[..|cs| - 1], ks[..|ks| - 1], k) + cs[|cs| - 1]
    else KeySum(cs[..|cs| - 1], ks[..|ks| - 1], k)
  }

  /** Peeling the last entry off a keyed sum: it counts exactly when its key is the one summed. */
  lemma KeySumLast<K>(cs: seq<real>, ks: seq<K>, k: K, pc: seq<real>, pk: seq<K>, c: real, key: K)
    requires |cs| == |ks| && cs != []
    requires pc == cs[..|cs| - 1] && pk == ks[..|ks| - 1] && c == cs[|cs| - 1] && key == ks[|ks| - 1]
    ensures key == k ==> KeySum(cs, ks, k) == KeySum(pc, pk, k) + c
    ensures key != k ==> KeySum(cs, ks, k) == KeySum(pc, pk, k)
  {
  }

  /** The coefficient of `x_v` in a linear form. */
  function AffineCoef(f: ScalarAffineFunction, v: Index): real
    requires f.Valid()
  {
    KeySum(f.coefficients, f.variables, v)
  }

  /** The coefficient of the monomial with key `p` in a quadratic form; `x_i * x_j` and `x_j * x_i` both count towards `MakePair(i, j)`. */
  function QuadraticCoef(q: ScalarQuadraticFunction, p: VariablePair): real
    requires q.Valid()
  {
    KeySum(q.coefficients, PairKeys(q.variable1s, q.variable2s), p)
  }

  /** The coefficient of `x_v` in the affine part of a quadratic form (zero when it is absent). */
  function QuadraticLinearCoef(q: ScalarQuadraticFunction, v: Index): real
    requires q.Valid()
  {
    if q.affinePart.Some? then AffineCoef(q.affinePart.value, v) else 0.0
  }

  /** The constant term of a quadratic form (zero when its affine part or that part's constant is absent). */
  function QuadraticConstant(q: ScalarQuadraticFunction): real
    requires q.Valid()
  {
    if q.affinePart.Some? then ConstantValue(q.affinePart.value.constant) else 0.0
  }

  lemma KeySumSingle<K>(c: real, k: K, j: K)
    ensures KeySum([c], [k], j) == if k == j then c else 0.0
  {
    assert [c][..0] == [] && [k][..0] == [];
  }

  /** Concatenating two term lists adds their coefficients key by key. */
  lemma {:induction false} KeySumConcat<K>(cs1: seq<real>, ks1: seq<K>, cs2: seq<real>, ks2: seq<K>, k: K)
    requires |cs1| == |ks1| && |cs2| == |ks2|
    ensures KeySum(cs1 + cs2, ks1 + ks2, k) == KeySum(cs1, ks1, k) + KeySum(cs2, ks2, k)
    decreases |cs2|
  {
    if cs2 == [] {
      assert cs1 + cs2 == cs1 && ks1 + ks2 == ks1;
    } else {
      var n := |cs2| - 1;
      KeySumConcat(cs1, ks1, cs2[..n], ks2[..n], k);
      assert (cs1 + cs2)[..|cs1| + n] == cs1 + cs2[..n];
      assert (ks1 + ks2)[..|ks1| + n] == ks1 + ks2[..n];
    }
  }

  lemma Distribute(s: real, a: real, b: real, sa: real)
    requires sa == s * a
    ensures sa + b * s == s * (a + b)
  {
  }

  /** Scaling every coefficient scales every sum. */
  lemma {:induction false} KeySumScale<K>(cs: seq<real>, ks: seq<K>, s: real, k: K)
    requires |cs| == |ks|
    ensures KeySum(ScaleAll(cs, s), ks, k) == s * KeySum(cs, ks, k)
    decreases |cs|
  {
    if cs != [] {
      var n := |cs| - 1;
      var scaled := ScaleAll(cs, s);
      assert scaled[..n] == ScaleAll(cs[..n], s) && scaled[n] == cs[n] * s;
      KeySumScale(cs[..n], ks[..n], s, k);
      if ks[n] == k {
        Distribute(s, KeySum(cs[..n], ks[..n], k), cs[n], KeySum(ScaleAll(cs[..n], s), ks[..n], k));
      }
    }
  }

  /** With distinct keys, the coefficient of `ks[i]` is `cs[i]` alone. */
  lemma {:induction false} KeySumAt<K>(cs: seq<real>, ks: seq<K>, i: nat)
    requires |cs| == |ks| && Distinct(ks) && i < |ks|
    ensures KeySum(cs, ks, ks[i]) == cs[i]
    decreases |cs|
  {
    var n := |cs| - 1;
    if i < n {
      KeySumAt(cs[..n], ks[..n], i);
    } else {
      KeySumAbsent(cs[..n], ks[..n], ks[i]);
    }
  }

  /** A key that does not occur has coefficient zero. */
  lemma {:induction false} KeySumAbsent<K>(cs: seq<real>, ks: seq<K>, k: K)
    requires |cs| == |ks|
    requires forall i :: 0 <= i < |ks| ==> ks[i] != k
    ensures KeySum(cs, ks, k) == 0.0
    decreases |cs|
  {
    if cs != [] {
      KeySumAbsent(cs[..|cs| - 1], ks[..|ks| - 1], k);
    }
  }

  // ---------------------------------------------------------------------
  // Constructors and size

  /** `ScalarAffineFunction(CoeffT v)`: the constant `c` and no terms. */
  function AffineConstant(c: real): (f: ScalarAffineFunction)
    ensures f.Valid() && f.Size() == 0 && f.constant == Some(c)
    ensures forall v :: AffineCoef(f, v) == 0.0
  {
    ScalarAffineFunction([], [], Some(c))
  }

  /** `ScalarAffineFunction(const VariableIndex &)`: one term with coefficient 1 and no constant. */
  function AffineVariable(v: VariableIndex): (f: ScalarAffineFunction)
    ensures f.Valid() && f.Size() == 1 && f.constant.None?
    ensures forall w :: AffineCoef(f, w) == if w == v.index then 1.0 else 0.0
  {
    var f := ScalarAffineFunction([1.0], [v.index], None);
    assert forall w :: AffineCoef(f, w) == if w == v.index then 1.0 else 0.0 by {
      forall w ensures AffineCoef(f, w) == if w == v.index then 1.0 else 0.0 {
        KeySumSingle(1.0, v.index, w);
      }
    }
    f
  }

  /** `ScalarAffineFunction(v, c)`: the term `c * v` and no constant. */
  function ScaledVariable(v: VariableIndex, c: real): (f: ScalarAffineFunction)
    ensures f.Valid() && f.Size() == 1 && f.constant.None?
    ensures forall w :: AffineCoef(f, w) == if w == v.index then c else 0.0
  {
    var f := ScalarAffineFunction([c], [v.index], None);
    assert forall w :: AffineCoef(f, w) == if w == v.index then c else 0.0 by {
      forall w ensures AffineCoef(f, w) == if w == v.index then c else 0.0 {
        KeySumSingle(c, v.index, w);
      }
    }
    f
  }

  /** `ScalarAffineFunction(v, c1, c2)`: `c1 * v + c2`, with the constant present. */
  function ScaledVariableWithConstant(v: VariableIndex, c1: real, c2: real): (f: ScalarAffineFunction)
    ensures f.Valid() && f.Size() == 1 && f.constant == Some(c2)
    ensures forall w :: AffineCoef(f, w) == if w == v.index then c1 else 0.0
  {
    var f := ScalarAffineFunction([c1], [v.index], Some(c2));
    assert forall w :: AffineCoef(f, w) == if w == v.index then c1 else 0.0 by {
      forall w ensures AffineCoef(f, w) == if w == v.index then c1 else 0.0 {
        KeySumSingle(c1, v.index, w);
      }
    }
    f
  }

  /** The two-vector constructors: the i-th coefficient belongs to the i-th variable; the vectors must be parallel. */
  function AffineFromVectors(cs: seq<real>, vs: seq<Index>, c: Option<real>): (f: ScalarAffineFunction)
    requires |cs| == |vs|
    ensures f.Valid() && f.Size() == |cs| == |vs|
    ensures forall i :: 0 <= i < |cs| ==> f.coefficients[i] == cs[i] && f.variables[i] == vs[i]
    ensures f.constant == c
  {
    ScalarAffineFunction(cs, vs, c)
  }

  /** The three-vector constructors of a quadratic form; the vectors must be parallel. */
  function QuadraticFromVectors(cs: seq<real>, v1s: seq<Index>, v2s: seq<Index>, a: Option<ScalarAffineFunction>)
    : (q: ScalarQuadraticFunction)
    requires |cs| == |v1s| == |v2s|
    requires a.Some? ==> a.value.Valid()
    ensures q.Valid() && q.Size() == |cs|
    ensures forall i :: 0 <= i < |cs| ==>
      q.coefficients[i] == cs[i] && q.variable1s[i] == v1s[i] && q.variable2s[i] == v2s[i]
    ensures q.affinePart == a
  {
    ScalarQuadraticFunction(cs, v1s, v2s, a)
  }

  // ---------------------------------------------------------------------
  // The arithmetic kernels behind the free operators

  /** The sum of two optional constants: absent only when both are absent. */
  function OptPlus(a: Option<real>, b: Option<real>): (r: Option<real>)
    ensures r.None? <==> a.None? && b.None?
    ensures ConstantValue(r) == ConstantValue(a) + ConstantValue(b)
  {
    if a.None? then b else if b.None? then a else Some(a.value + b.value)
  }

  /** An optional constant times `s`: absent stays absent. */
  function OptScale(a: Option<real>, s: real): (r: Option<real>)
    ensures r.None? <==> a.None?
    ensures ConstantValue(r) == s * ConstantValue(a)
  {
    if a.None? then None else Some(a.value * s)
  }

  /** The terms of both operands side by side, the constants added. */
  function AffinePlus(a: ScalarAffineFunction, b: ScalarAffineFunction): (r: ScalarAffineFunction)
    requires a.Valid() && b.Valid()
    ensures r.Valid() && r.Size() == a.Size() + b.Size()
    ensures forall v :: AffineCoef(r, v) == AffineCoef(a, v) + AffineCoef(b, v)
    ensures r.constant.None? <==> a.constant.None? && b.constant.None?
    ensures ConstantValue(r.constant) == ConstantValue(a.constant) + ConstantValue(b.constant)
  {
    var r := ScalarAffineFunction(a.coefficients + b.coefficients, a.variables + b.variables,
      OptPlus(a.constant, b.constant));
    assert forall v :: AffineCoef(r, v) == AffineCoef(a, v) + AffineCoef(b, v) by {
      forall v ensures AffineCoef(r, v) == AffineCoef(a, v) + AffineCoef(b, v) {
        KeySumConcat(a.coefficients, a.variables, b.coefficients, b.variables, v);
      }
    }
    r
  }

  /** Every coefficient and the constant multiplied by `s`. */
  function AffineScale(a: ScalarAffineFunction, s: real): (r: ScalarAffineFunction)
    requires a.Valid()
    ensures r.Valid() && r.Size() == a.Size() && r.variables == a.variables
    ensures forall v :: AffineCoef(r, v) == s * AffineCoef(a, v)
    ensures r.constant.None? <==> a.constant.None?
    ensures ConstantValue(r.constant) == s * ConstantValue(a.constant)
  {
    var r := ScalarAffineFunction(ScaleAll(a.coefficients, s), a.variables, OptScale(a.constant, s));
    assert forall v :: AffineCoef(r, v) == s * AffineCoef(a, v) by {
      forall v ensures AffineCoef(r, v) == s * AffineCoef(a, v) {
        KeySumScale(a.coefficients, a.variables, s, v);
      }
    }
    r
  }

  /** The sum of two optional affine parts: absent only when both are absent. */
  function OptAffinePlus(a: Option<ScalarAffineFunction>, b: Option<ScalarAffineFunction>)
    : (r: Option<ScalarAffineFunction>)
    requires a.Some? ==> a.value.Valid()
    requires b.Some? ==> b.value.Valid()
    ensures r.None? <==> a.None? && b.None?
    ensures r.Some? ==> r.value.Valid()
  {
    if a.None? then b else if b.None? then a else Some(AffinePlus(a.value, b.value))
  }

  /** The quadratic terms of both operands side by side, the affine parts added. */
  function QuadraticPlus(p: ScalarQuadraticFunction, q: ScalarQuadraticFunction): (r: ScalarQuadraticFunction)
    requires p.Valid() && q.Valid()
    ensures r.Valid() && r.Size() == p.Size() + q.Size()
    ensures forall k :: QuadraticCoef(r, k) == QuadraticCoef(p, k) + QuadraticCoef(q, k)
    ensures forall v :: QuadraticLinearCoef(r, v) == QuadraticLinearCoef(p, v) + QuadraticLinearCoef(q, v)
    ensures QuadraticConstant(r) == QuadraticConstant(p) + QuadraticConstant(q)
    ensures r.affinePart.None? <==> p.affinePart.None? && q.affinePart.None?
  {
    var r := ScalarQuadraticFunction(p.coefficients + q.coefficients, p.variable1s + q.variable1s,
      p.variable2s + q.variable2s, OptAffinePlus(p.affinePart, q.affinePart));
    PairKeysConcat(p.variable1s, p.variable2s, q.variable1s, q.variable2s);
    assert forall k :: QuadraticCoef(r, k) == QuadraticCoef(p, k) + QuadraticCoef(q, k) by {
      forall k ensures QuadraticCoef(r, k) == QuadraticCoef(p, k) + QuadraticCoef(q, k) {
        KeySumConcat(p.coefficients, PairKeys(p.variable1s, p.variable2s),
          q.coefficients, PairKeys(q.variable1s, q.variable2s), k);
      }
    }
    r
  }

  /** Every quadratic coefficient and the affine part multiplied by `s`. */
  function QuadraticScale(q: ScalarQuadraticFunction, s: real): (r: ScalarQuadraticFunction)
    requires q.Valid()
    ensures r.Valid() && r.Size() == q.Size()
    ensures forall k :: QuadraticCoef(r, k) == s * QuadraticCoef(q, k)
    ensures forall v :: QuadraticLinearCoef(r, v) == s * QuadraticLinearCoef(q, v)
    ensures QuadraticConstant(r) == s * QuadraticConstant(q)
    ensures r.affinePart.None? <==> q.affinePart.None?
  {
    var r := ScalarQuadraticFunction(ScaleAll(q.coefficients, s), q.variable1s, q.variable2s,
      if q.affinePart.Some? then Some(AffineScale(q.affinePart.value, s)) else None);
    assert forall k :: QuadraticCoef(r, k) == s * QuadraticCoef(q, k) by {
      forall k ensures QuadraticCoef(r, k) == s * QuadraticCoef(q, k) {
        KeySumScale(q.coefficients, PairKeys(q.variable1s, q.variable2s), s, k);
      }
    }
    r
  }

  /** A linear form as a quadratic form with no quadratic terms. */
  function AffineAsQuadratic(a: ScalarAffineFunction): (r: ScalarQuadraticFunction)
    requires a.Valid()
    ensures r.Valid() && r.Size() == 0
    ensures forall k :: QuadraticCoef(r, k) == 0.0
    ensures forall v :: QuadraticLinearCoef(r, v) == AffineCoef(a, v)
    ensures QuadraticConstant(r) == ConstantValue(a.constant)
  {
    ScalarQuadraticFunction([], [], [], Some(a))
  }

  /** The quadratic terms of two forms without affine parts, side by side. */
  function QuadraticJoin(p: ScalarQuadraticFunction, q: ScalarQuadraticFunction): (r: ScalarQuadraticFunction)
    requires p.Valid() && q.Valid() && p.affinePart.None? && q.affinePart.None?
    ensures r.Valid() && r.affinePart.None? && r.Size() == p.Size() + q.Size()
  {
    ScalarQuadraticFunction(p.coefficients + q.coefficients, p.variable1s + q.variable1s,
      p.variable2s + q.variable2s, None)
  }

  /** The products of one term `c * x_v` with every term of `b`, one quadratic term each. */
  function Row(c: real, v: Index, b: ScalarAffineFunction): (r: ScalarQuadraticFunction)
    requires b.Valid()
    ensures r.Valid() && r.affinePart.None? && r.Size() == b.Size()
    ensures forall i :: 0 <= i < b.Size() ==> r.variable1s[i] == v && r.variable2s[i] == b.variables[i]
  {
    ScalarQuadraticFunction(ScaleAll(b.coefficients, c), seq(|b.variables|, _ => v), b.variables, None)
  }

  /** Every term of `a` times every term of `b`, row by row. */
  function CrossTerms(acs: seq<real>, avs: seq<Index>, b: ScalarAffineFunction): (r: ScalarQuadraticFunction)
    requires |acs| == |avs| && b.Valid()
    ensures r.Valid() && r.affinePart.None?
    ensures acs == [] || b.Size() == 0 <==> r.Size() == 0
  {
    if acs == [] then ScalarQuadraticFunction([], [], [], None)
    else QuadraticJoin(CrossTerms(acs[..|acs| - 1], avs[..|avs| - 1], b), Row(acs[|acs| - 1], avs[|avs| - 1], b))
  }

  /**
   * The product of two linear forms: the cross terms, plus a linear part made
   * of each operand's terms times the other's constant (only where that
   * constant is present), plus the product of the constants when both are
   * present. Without any constant the product has no affine part.
   */
  function AffineTimes(a: ScalarAffineFunction, b: ScalarAffineFunction): (r: ScalarQuadraticFunction)
    requires a.Valid() && b.Valid()
    ensures r.Valid()
    ensures r.affinePart.None? <==> a.constant.None? && b.constant.None?
    ensures r.Size() == 0 <==> a.Size() == 0 || b.Size() == 0
  {
    var cross := CrossTerms(a.coefficients, a.variables, b);
    var constant := if a.constant.Some? && b.constant.Some? then Some(a.constant.value * b.constant.value) else None;
    var linear := AffinePlus(TermsTimesConstant(b, a.constant), TermsTimesConstant(a, b.constant));
    cross.(affinePart := if a.constant.Some? || b.constant.Some? then Some(linear.(constant := constant)) else None)
  }

  /** The terms of `f` (not its constant) times the constant `c`, or no terms at all when `c` is absent. */
  function TermsTimesConstant(f: ScalarAffineFunction, c: Option<real>): (r: ScalarAffineFunction)
    requires f.Valid()
    ensures r.Valid() && r.constant.None?
    ensures forall v :: AffineCoef(r, v) == Scale(ConstantValue(c), AffineCoef(f, v))
  {
    if c.Some? then AffineScale(f.(constant := None), c.value) else ScalarAffineFunction([], [], None)
  }

  /** The linear part of `(La + ca) * (Lb + cb)` is `ca * Lb + cb * La`. */
  lemma AffineTimesLinearPart(a: ScalarAffineFunction, b: ScalarAffineFunction)
    requires a.Valid() && b.Valid()
    ensures forall v ::
      QuadraticLinearCoef(AffineTimes(a, b), v) == ProductLinearCoef(ConstantValue(a.constant), AffineCoef(a, v), ConstantValue(b.constant), AffineCoef(b, v))
  {
    forall v {
      AffineTimesLinearAt(a, b, v);
    }
  }

  /** One coefficient of the linear part of `(La + ca) * (Lb + cb)`. */
  lemma AffineTimesLinearAt(a: ScalarAffineFunction, b: ScalarAffineFunction, v: Index)
    requires a.Valid() && b.Valid()
    ensures QuadraticLinearCoef(AffineTimes(a, b), v)
      == ProductLinearCoef(ConstantValue(a.constant), AffineCoef(a, v), ConstantValue(b.constant), AffineCoef(b, v))
  {
    if a.constant.Some? || b.constant.Some? {
      var ta, tb := TermsTimesConstant(b, a.constant), TermsTimesConstant(a, b.constant);
      assert QuadraticLinearCoef(AffineTimes(a, b), v) == AffineCoef(AffinePlus(ta, tb), v);
      LinearPartSum(ta, tb, ConstantValue(a.constant), AffineCoef(a, v), ConstantValue(b.constant), AffineCoef(b, v), v);
    }
  }

  /** The linear part of the product adds the two scaled term lists coefficient by coefficient. */
  lemma LinearPartSum(ta: ScalarAffineFunction, tb: ScalarAffineFunction, ca: real, la: real, cb: real, lb: real, v: Index)
    requires ta.Valid() && tb.Valid()
    requires AffineCoef(ta, v) == Scale(ca, lb) && AffineCoef(tb, v) == Scale(cb, la)
    ensures AffineCoef(AffinePlus(ta, tb), v) == ProductLinearCoef(ca, la, cb, lb)
  {
  }

  /** The constant of `(La + ca) * (Lb + cb)` is `ca * cb`, present only when both constants are. */
  lemma AffineTimesConstant(a: ScalarAffineFunction, b: ScalarAffineFunction)
    requires a.Valid() && b.Valid()
    ensures QuadraticConstant(AffineTimes(a, b)) == ConstantValue(a.constant) * ConstantValue(b.constant)
    ensures AffineTimes(a, b).affinePart.Some? ==>
      (AffineTimes(a, b).affinePart.value.constant.Some? <==> a.constant.Some? && b.constant.Some?)
  {
  }

  /** Joining two term lists adds their coefficients monomial by monomial. */
  lemma JoinCoef(p: ScalarQuadraticFunction, q: ScalarQuadraticFunction, k: VariablePair)
    requires p.Valid() && q.Valid() && p.affinePart.None? && q.affinePart.None?
    ensures QuadraticCoef(QuadraticJoin(p, q), k) == QuadraticCoef(p, k) + QuadraticCoef(q, k)
  {
    PairKeysConcat(p.variable1s, p.variable2s, q.variable1s, q.variable2s);
    KeySumConcat(p.coefficients, PairKeys(p.variable1s, p.variable2s),
      q.coefficients, PairKeys(q.variable1s, q.variable2s), k);
  }

  /** Every key of a quadratic form is ordered, so an unordered pair has coefficient zero. */
  lemma UnorderedCoef(q: ScalarQuadraticFunction, p: VariablePair)
    requires q.Valid() && !p.Ordered()
    ensures QuadraticCoef(q, p) == 0.0
  {
    var keys := PairKeys(q.variable1s, q.variable2s);
    assert forall i :: 0 <= i < |keys| ==> keys[i].Ordered();
    KeySumAbsent(q.coefficients, keys, p);
  }

  /** `c * x`, as a function so that products of equal factors are matched as terms rather than by arithmetic. */
  function Scale(c: real, x: real): real {
    c * x
  }

  /**
   * The coefficient of the monomial `x_u * x_w` (`u <= w`) in
   * `(Σ a_i x_i) * (Σ b_j x_j)`, given the coefficients of `u` and `w` on
   * each side: `a_u * b_u` for a square, `a_u * b_w + a_w * b_u` otherwise.
   */
  function ProductPairCoef(au: real, aw: real, bu: real, bw: real, square: bool): real {
    if square then au * bu else au * bw + aw * bu
  }

  /** The ordered pair of `v` and `w` is `p` exactly when `{v, w}` is `{p.var1, p.var2}`. */
  lemma MakePairIs(v: Index, w: Index, p: VariablePair)
    requires p.Ordered()
    ensures MakePair(v, w) == p <==> (v == p.var1 && w == p.var2) || (v == p.var2 && w == p.var1)
  {
  }

  /** Two key lists that pick out the same positions give the same sum. */
  lemma {:induction false} KeySumRekey<K, L>(cs: seq<real>, ks: seq<K>, k: K, ls: seq<L>, l: L)
    requires |cs| == |ks| == |ls|
    requires forall i :: 0 <= i < |ks| ==> (ks[i] == k <==> ls[i] == l)
    ensures KeySum(cs, ks, k) == KeySum(cs, ls, l)
    decreases |cs|
  {
    if cs != [] {
      KeySumRekey(cs[..|cs| - 1], ks[..|ks| - 1], k, ls[..|ls| - 1], l);
    }
  }

  /** The row of `c * x_v` gives the monomial `p` the coefficient `c` times the coefficient of `v`'s partner in `p`, or none when `v` is not in `p`. */
  lemma RowCoef(c: real, v: Index, b: ScalarAffineFunction, p: VariablePair)
    requires b.Valid() && p.Ordered()
    ensures v == p.var1 ==> QuadraticCoef(Row(c, v, b), p) == Scale(c, AffineCoef(b, p.var2))
    ensures v != p.var1 && v == p.var2 ==> QuadraticCoef(Row(c, v, b), p) == Scale(c, AffineCoef(b, p.var1))
    ensures v != p.var1 && v != p.var2 ==> QuadraticCoef(Row(c, v, b), p) == 0.0
  {
    if v == p.var1 {
      RowCoefPartner(c, v, b, p, p.var2);
    } else if v == p.var2 {
      RowCoefPartner(c, v, b, p, p.var1);
    } else {
      RowCoefAbsent(c, v, b, p);
    }
  }

  /** `RowCoef` when `v` is in `p` and `w` is its partner there. */
  lemma RowCoefPartner(c: real, v: Index, b: ScalarAffineFunction, p: VariablePair, w: Index)
    requires b.Valid() && p.Ordered()
    requires (v == p.var1 && w == p.var2) || (v != p.var1 && v == p.var2 && w == p.var1)
    ensures QuadraticCoef(Row(c, v, b), p) == Scale(c, AffineCoef(b, w))
  {
    var row := Row(c, v, b);
    var keys := PairKeys(row.variable1s, row.variable2s);
    KeySumScale(b.coefficients, keys, c, p);
    forall i | 0 <= i < |keys| ensures keys[i] == p <==> b.variables[i] == w {
      MakePairIs(v, b.variables[i], p);
    }
    KeySumRekey(b.coefficients, keys, p, b.variables, w);
  }

  /** `RowCoef` when `v` is not in `p`. */
  lemma RowCoefAbsent(c: real, v: Index, b: ScalarAffineFunction, p: VariablePair)
    requires b.Valid() && p.Ordered()
    requires v != p.var1 && v != p.var2
    ensures QuadraticCoef(Row(c, v, b), p) == 0.0
  {
    var row := Row(c, v, b);
    var keys := PairKeys(row.variable1s, row.variable2s);
    forall i | 0 <= i < |keys| ensures keys[i] != p {
      MakePairIs(v, b.variables[i], p);
    }
    KeySumAbsent(row.coefficients, keys, p);
  }

  // The lemmas below take the prefix `pa, pv` and the last term `c, v` of the first factor as parameters:
  // an ensures that mentions `acs[..|acs| - 1]` or `acs[|acs| - 1]` directly costs the verifier far more than the same fact about a name.

  /** The last term of the first factor adds its row to the cross terms. */
  lemma CrossTermsStep(acs: seq<real>, avs: seq<Index>, b: ScalarAffineFunction, p: VariablePair,
                       pa: seq<real>, pv: seq<Index>, c: real, v: Index)
    requires |acs| == |avs| && b.Valid() && acs != []
    requires pa == acs[..|acs| - 1] && pv == avs[..|avs| - 1] && c == acs[|acs| - 1] && v == avs[|avs| - 1]
    ensures QuadraticCoef(CrossTerms(acs, avs, b), p) == QuadraticCoef(CrossTerms(pa, pv, b), p) + QuadraticCoef(Row(c, v, b), p)
  {
    JoinCoef(CrossTerms(pa, pv, b), Row(c, v, b), p);
  }

  /** The cross terms of two linear forms carry, on each ordered monomial, the coefficient of that monomial in the product. */
  lemma {:induction false} CrossTermsCoef(acs: seq<real>, avs: seq<Index>, b: ScalarAffineFunction, p: VariablePair)
    requires |acs| == |avs| && b.Valid() && p.Ordered()
    ensures QuadraticCoef(CrossTerms(acs, avs, b), p) == ProductPairCoef(
      KeySum(acs, avs, p.var1), KeySum(acs, avs, p.var2), AffineCoef(b, p.var1), AffineCoef(b, p.var2),
      p.var1 == p.var2)
    decreases |acs|
  {
    if acs != [] {
      var pa, pv, c, v := acs[..|acs| - 1], avs[..|avs| - 1], acs[|acs| - 1], avs[|avs| - 1];
      CrossTermsCoef(pa, pv, b, p);
      CrossTermsCoefStep(acs, avs, b, p, pa, pv, c, v);
    }
  }

  /** The inductive step of `CrossTermsCoef`: the last term of the first factor keeps the product's coefficient right. */
  lemma CrossTermsCoefStep(acs: seq<real>, avs: seq<Index>, b: ScalarAffineFunction, p: VariablePair,
      pa: seq<real>, pv: seq<Index>, c: real, v: Index)
    requires |acs| == |avs| && b.Valid() && p.Ordered() && acs != []
    requires pa == acs[..|acs| - 1] && pv == avs[..|avs| - 1] && c == acs[|acs| - 1] && v == avs[|avs| - 1]
    requires QuadraticCoef(CrossTerms(pa, pv, b), p) == ProductPairCoef(
      KeySum(pa, pv, p.var1), KeySum(pa, pv, p.var2), AffineCoef(b, p.var1), AffineCoef(b, p.var2), p.var1 == p.var2)
    ensures QuadraticCoef(CrossTerms(acs, avs, b), p) == ProductPairCoef(
      KeySum(acs, avs, p.var1), KeySum(acs, avs, p.var2), AffineCoef(b, p.var1), AffineCoef(b, p.var2),
      p.var1 == p.var2)
  {
    if v == p.var1 {
      CrossTermsCoefFirst(acs, avs, b, p, pa, pv, c, v);
    } else if v == p.var2 {
      CrossTermsCoefSecond(acs, avs, b, p, pa, pv, c, v);
    } else {
      CrossTermsCoefNone(acs, avs, b, p, pa, pv, c, v);
    }
  }

  /** The step when the last term's variable is the first of the monomial. */
  lemma CrossTermsCoefFirst(acs: seq<real>, avs: seq<Index>, b: ScalarAffineFunction, p: VariablePair,
      pa: seq<real>, pv: seq<Index>, c: real, v: Index)
    requires |acs| == |avs| && b.Valid() && p.Ordered() && acs != []
    requires pa == acs[..|acs| - 1] && pv == avs[..|avs| - 1] && c == acs[|acs| - 1] && v == avs[|avs| - 1]
    requires QuadraticCoef(CrossTerms(pa, pv, b), p) == ProductPairCoef(
      KeySum(pa, pv, p.var1), KeySum(pa, pv, p.var2), AffineCoef(b, p.var1), AffineCoef(b, p.var2), p.var1 == p.var2)
    requires v == p.var1
    ensures QuadraticCoef(CrossTerms(acs, avs, b), p) == ProductPairCoef(
      KeySum(acs, avs, p.var1), KeySum(acs, avs, p.var2), AffineCoef(b, p.var1), AffineCoef(b, p.var2),
      p.var1 == p.var2)
  {
    CrossTermsFirstFacts(acs, avs, b, p, pa, pv, c, v);
    PairCoefStepFirst(QuadraticCoef(CrossTerms(acs, avs, b), p), QuadraticCoef(CrossTerms(pa, pv, b), p),
      QuadraticCoef(Row(c, v, b), p), KeySum(pa, pv, p.var1), KeySum(pa, pv, p.var2), c,
      AffineCoef(b, p.var1), AffineCoef(b, p.var2), KeySum(acs, avs, p.var1), KeySum(acs, avs, p.var2), p.var1 == p.var2);
  }

  /** The step when the last term's variable is the second, and not the first, of the monomial. */
  lemma CrossTermsCoefSecond(acs: seq<real>, avs: seq<Index>, b: ScalarAffineFunction, p: VariablePair,
      pa: seq<real>, pv: seq<Index>, c: real, v: Index)
    requires |acs| == |avs| && b.Valid() && p.Ordered() && acs != []
    requires pa == acs[..|acs| - 1] && pv == avs[..|avs| - 1] && c == acs[|acs| - 1] && v == avs[|avs| - 1]
    requires QuadraticCoef(CrossTerms(pa, pv, b), p) == ProductPairCoef(
      KeySum(pa, pv, p.var1), KeySum(pa, pv, p.var2), AffineCoef(b, p.var1), AffineCoef(b, p.var2), p.var1 == p.var2)
    requires v != p.var1 && v == p.var2
    ensures QuadraticCoef(CrossTerms(acs, avs, b), p) == ProductPairCoef(
      KeySum(acs, avs, p.var1), KeySum(acs, avs, p.var2), AffineCoef(b, p.var1), AffineCoef(b, p.var2),
      p.var1 == p.var2)
  {
    CrossTermsSecondFacts(acs, avs, b, p, pa, pv, c, v);
    PairCoefStepSecond(QuadraticCoef(CrossTerms(acs, avs, b), p), QuadraticCoef(CrossTerms(pa, pv, b), p),
      QuadraticCoef(Row(c, v, b), p), KeySum(pa, pv, p.var1), KeySum(pa, pv, p.var2), c,
      AffineCoef(b, p.var1), AffineCoef(b, p.var2), KeySum(acs, avs, p.var1), KeySum(acs, avs, p.var2), p.var1 == p.var2);
  }

  /** The step when the last term's variable is not in the monomial. */
  lemma CrossTermsCoefNone(acs: seq<real>, avs: seq<Index>, b: ScalarAffineFunction, p: VariablePair,
      pa: seq<real>, pv: seq<Index>, c: real, v: Index)
    requires |acs| == |avs| && b.Valid() && p.Ordered() && acs != []
    requires pa == acs[..|acs| - 1] && pv == avs[..|avs| - 1] && c == acs[|acs| - 1] && v == avs[|avs| - 1]
    requires QuadraticCoef(CrossTerms(pa, pv, b), p) == ProductPairCoef(
      KeySum(pa, pv, p.var1), KeySum(pa, pv, p.var2), AffineCoef(b, p.var1), AffineCoef(b, p.var2), p.var1 == p.var2)
    requires v != p.var1 && v != p.var2
    ensures QuadraticCoef(CrossTerms(acs, avs, b), p) == ProductPairCoef(
      KeySum(acs, avs, p.var1), KeySum(acs, avs, p.var2), AffineCoef(b, p.var1), AffineCoef(b, p.var2),
      p.var1 == p.var2)
  {
    CrossTermsStep(acs, avs, b, p, pa, pv, c, v);
    RowCoef(c, v, b, p);
    KeySumLast(acs, avs, p.var1, pa, pv, c, v);
    KeySumLast(acs, avs, p.var2, pa, pv, c, v);
    PairCoefStepNone(QuadraticCoef(CrossTerms(acs, avs, b), p), QuadraticCoef(CrossTerms(pa, pv, b), p),
      QuadraticCoef(Row(c, v, b), p), KeySum(pa, pv, p.var1), KeySum(pa, pv, p.var2),
      AffineCoef(b, p.var1), AffineCoef(b, p.var2), KeySum(acs, avs, p.var1), KeySum(acs, avs, p.var2), p.var1 == p.var2);
  }

  /** What the last term contributes when its variable is the first of the monomial. */
  lemma CrossTermsFirstFacts(acs: seq<real>, avs: seq<Index>, b: ScalarAffineFunction, p: VariablePair,
      pa: seq<real>, pv: seq<Index>, c: real, v: Index)
    requires |acs| == |avs| && b.Valid() && p.Ordered() && acs != []
    requires pa == acs[..|acs| - 1] && pv == avs[..|avs| - 1] && c == acs[|acs| - 1] && v == avs[|avs| - 1]
    requires v == p.var1
    ensures QuadraticCoef(CrossTerms(acs, avs, b), p) == QuadraticCoef(CrossTerms(pa, pv, b), p) + QuadraticCoef(Row(c, v, b), p)
    ensures QuadraticCoef(Row(c, v, b), p) == Scale(c, AffineCoef(b, p.var2))
    ensures KeySum(acs, avs, p.var1) == KeySum(pa, pv, p.var1) + c
    ensures p.var1 != p.var2 ==> KeySum(acs, avs, p.var2) == KeySum(pa, pv, p.var2)
  {
    CrossTermsStep(acs, avs, b, p, pa, pv, c, v);
    RowCoef(c, v, b, p);
    KeySumLast(acs, avs, p.var1, pa, pv, c, v);
    KeySumLast(acs, avs, p.var2, pa, pv, c, v);
  }

  /** What the last term contributes when its variable is the second, and not the first, of the monomial. */
  lemma CrossTermsSecondFacts(acs: seq<real>, avs: seq<Index>, b: ScalarAffineFunction, p: VariablePair,
      pa: seq<real>, pv: seq<Index>, c: real, v: Index)
    requires |acs| == |avs| && b.Valid() && p.Ordered() && acs != []
    requires pa == acs[..|acs| - 1] && pv == avs[..|avs| - 1] && c == acs[|acs| - 1] && v == avs[|avs| - 1]
    requires v != p.var1 && v == p.var2
    ensures QuadraticCoef(CrossTerms(acs, avs, b), p) == QuadraticCoef(CrossTerms(pa, pv, b), p) + QuadraticCoef(Row(c, v, b), p)
    ensures QuadraticCoef(Row(c, v, b), p) == Scale(c, AffineCoef(b, p.var1))
    ensures KeySum(acs, avs, p.var1) == KeySum(pa, pv, p.var1)
    ensures KeySum(acs, avs, p.var2) == KeySum(pa, pv, p.var2) + c
  {
    CrossTermsStep(acs, avs, b, p, pa, pv, c, v);
    RowCoef(c, v, b, p);
    KeySumLast(acs, avs, p.var1, pa, pv, c, v);
    KeySumLast(acs, avs, p.var2, pa, pv, c, v);
  }

  /** Adding `a * x_u` to the first factor of a product adds `a` times the coefficient of `u`'s partner. */
  lemma PairCoefStepFirst(total: real, front: real, row: real, au: real, aw: real, a: real, bu: real, bw: real, su: real, sw: real, square: bool)
    requires front == ProductPairCoef(au, aw, bu, bw, square) && row == Scale(a, bw)
    requires su == au + a
    requires square ==> bu == bw
    requires !square ==> sw == aw
    requires total == front + row
    ensures total == ProductPairCoef(su, sw, bu, bw, square)
  {
  }

  /** Adding `a * x_w` to the first factor of a product, for a monomial `x_u * x_w` with `u != w`, adds `a` times the coefficient of `u`. */
  lemma PairCoefStepSecond(total: real, front: real, row: real, au: real, aw: real, a: real, bu: real, bw: real, su: real, sw: real, square: bool)
    requires !square
    requires front == ProductPairCoef(au, aw, bu, bw, square) && row == Scale(a, bu)
    requires su == au && sw == aw + a
    requires total == front + row
    ensures total == ProductPairCoef(su, sw, bu, bw, square)
  {
  }

  /** A term whose variable is not in the monomial leaves its coefficient unchanged. */
  lemma PairCoefStepNone(total: real, front: real, row: real, au: real, aw: real, bu: real, bw: real, su: real, sw: real, square: bool)
    requires front == ProductPairCoef(au, aw, bu, bw, square) && row == 0.0
    requires su == au && sw == aw
    requires total == front + row
    ensures total == ProductPairCoef(su, sw, bu, bw, square)
  {
  }

  /** The quadratic coefficients of `a * b` for two linear forms: each ordered monomial gets its coefficient in the product, any other key none. */
  lemma AffineTimesPairs(a: ScalarAffineFunction, b: ScalarAffineFunction, p: VariablePair)
    requires a.Valid() && b.Valid()
    ensures p.Ordered() ==> QuadraticCoef(AffineTimes(a, b), p) == ProductPairCoef(
      AffineCoef(a, p.var1), AffineCoef(a, p.var2), AffineCoef(b, p.var1), AffineCoef(b, p.var2), p.var1 == p.var2)
    ensures !p.Ordered() ==> QuadraticCoef(AffineTimes(a, b), p) == 0.0
  {
    var cross := CrossTerms(a.coefficients, a.variables, b);
    assert QuadraticCoef(AffineTimes(a, b), p) == QuadraticCoef(cross, p);
    if p.Ordered() {
      CrossTermsCoef(a.coefficients, a.variables, b, p);
    } else {
      UnorderedCoef(cross, p);
    }
  }

  /** `(x0 + x1) * (x0 + x1)` has 1 on `x0*x0` and on `x1*x1`, and 2 on `x0*x1`. */
  lemma SquareOfSumExample()
    ensures var a := ScalarAffineFunction([1.0, 1.0], [0, 1], None);
      && QuadraticCoef(AffineTimes(a, a), VariablePair(0, 0)) == 1.0
      && QuadraticCoef(AffineTimes(a, a), VariablePair(1, 1)) == 1.0
      && QuadraticCoef(AffineTimes(a, a), VariablePair(0, 1)) == 2.0
  {
    var a := ScalarAffineFunction([1.0, 1.0], [0, 1], None);
    assert AffineCoef(a, 0) == 1.0 && AffineCoef(a, 1) == 1.0 by {
      assert a.coefficients[..1] == [1.0] && a.variables[..1] == [0];
      assert [1.0][..0] == [] && [0][..0] == [];
    }
    AffineTimesPairs(a, a, VariablePair(0, 0));
    AffineTimesPairs(a, a, VariablePair(1, 1));
    AffineTimesPairs(a, a, VariablePair(0, 1));
  }

  // ---------------------------------------------------------------------
  // The free operators `+ - *` over the four operand kinds

  /** An operand of the free operators: `CoeffT`, `VariableIndex`, or one of the two forms. */
  datatype Operand =
    | Scalar(value: real)
    | Var(variable: VariableIndex)
    | Aff(affine: ScalarAffineFunction)
    | Quad(quadratic: ScalarQuadraticFunction)
  {
    predicate Valid() {
      match this
      case Aff(f) => f.Valid()
      case Quad(q) => q.Valid()
      case _ => true
    }

    /** The degree of the operand's type: a form counts by its type, whatever its terms. */
    function Degree(): nat {
      match this
      case Scalar(_) => 0
      case Quad(_) => 2
      case _ => 1
    }
  }

  /** The coefficient of `x_v` in an operand. */
  function LinearCoefOf(e: Operand, v: Index): real
    requires e.Valid()
  {
    match e
    case Scalar(_) => 0.0
    case Var(w) => if w.index == v then 1.0 else 0.0
    case Aff(f) => AffineCoef(f, v)
    case Quad(q) => QuadraticLinearCoef(q, v)
  }

  /** The coefficient of the monomial with key `p` in an operand. */
  function PairCoefOf(e: Operand, p: VariablePair): real
    requires e.Valid()
  {
    if e.Quad? then QuadraticCoef(e.quadratic, p) else 0.0
  }

  /** The constant term of an operand. */
  function ConstantOf(e: Operand): real
    requires e.Valid()
  {
    match e
    case Scalar(c) => c
    case Var(_) => 0.0
    case Aff(f) => ConstantValue(f.constant)
    case Quad(q) => QuadraticConstant(q)
  }

  /** A scalar, variable or linear operand as a linear form. */
  function AsAffine(e: Operand): (f: ScalarAffineFunction)
    requires e.Valid() && e.Degree() <= 1
    ensures f.Valid()
    ensures forall v :: AffineCoef(f, v) == LinearCoefOf(e, v)
    ensures ConstantValue(f.constant) == ConstantOf(e)
  {
    match e
    case Scalar(c) => AffineConstant(c)
    case Var(v) => AffineVariable(v)
    case Aff(f) => f
  }

  /** Any operand as a quadratic form. */
  function AsQuadratic(e: Operand): (q: ScalarQuadraticFunction)
    requires e.Valid()
    ensures q.Valid()
    ensures forall k :: QuadraticCoef(q, k) == PairCoefOf(e, k)
    ensures forall v :: QuadraticLinearCoef(q, v) == LinearCoefOf(e, v)
    ensures QuadraticConstant(q) == ConstantOf(e)
  {
    if e.Quad? then e.quadratic else AffineAsQuadratic(AsAffine(e))
  }

  /** `operator+`, declared for every pair of operand kinds except two scalars: a quadratic form if either side is one, otherwise a linear form. */
  function Add(a: Operand, b: Operand): (r: Operand)
    requires a.Valid() && b.Valid()
    requires !(a.Scalar? && b.Scalar?)
    ensures r.Valid()
    ensures r.Degree() == if a.Degree() >= b.Degree() then a.Degree() else b.Degree()
    ensures r.Aff? || r.Quad?
  {
    if a.Quad? || b.Quad? then Quad(QuadraticPlus(AsQuadratic(a), AsQuadratic(b)))
    else Aff(AffinePlus(AsAffine(a), AsAffine(b)))
  }

  /** `-b`, used by `operator-`. */
  function Negate(b: Operand): (r: Operand)
    requires b.Valid()
    ensures r.Valid() && r.Degree() == b.Degree() && (r.Scalar? <==> b.Scalar?)
    ensures forall v :: LinearCoefOf(r, v) == -LinearCoefOf(b, v)
    ensures forall k :: PairCoefOf(r, k) == -PairCoefOf(b, k)
    ensures ConstantOf(r) == -ConstantOf(b)
  {
    match b
    case Scalar(c) => Scalar(-c)
    case Var(v) => Aff(ScaledVariable(v, -1.0))
    case Aff(f) => Aff(AffineScale(f, -1.0))
    case Quad(q) => Quad(QuadraticScale(q, -1.0))
  }

  /** `operator-`: `a + (-b)`. */
  function Sub(a: Operand, b: Operand): (r: Operand)
    requires a.Valid() && b.Valid()
    requires !(a.Scalar? && b.Scalar?)
    ensures r.Valid()
    ensures r.Degree() == if a.Degree() >= b.Degree() then a.Degree() else b.Degree()
  {
    Add(a, Negate(b))
  }

  /**
   * `operator*`, declared only where the degrees add up to at most 2 (and not
   * for two scalars): a quadratic form is only ever multiplied by a scalar,
   * and a product of two degree-1 operands is a quadratic form.
   */
  function Mul(a: Operand, b: Operand): (r: Operand)
    requires a.Valid() && b.Valid()
    requires !(a.Scalar? && b.Scalar?)
    requires a.Degree() + b.Degree() <= 2
    ensures r.Valid()
    ensures r.Degree() == a.Degree() + b.Degree()
  {
    if a.Scalar? then
      if b.Quad? then Quad(QuadraticScale(b.quadratic, a.value)) else Aff(AffineScale(AsAffine(b), a.value))
    else if b.Scalar? then
      if a.Quad? then Quad(QuadraticScale(a.quadratic, b.value)) else Aff(AffineScale(AsAffine(a), b.value))
    else if a.Var? && b.Var? then
      Quad(ScalarQuadraticFunction([1.0], [a.variable.index], [b.variable.index], None))
    else Quad(AffineTimes(AsAffine(a), AsAffine(b)))
  }

  /** `a + b` denotes the sum of the two polynomials, coefficient by coefficient. */
  lemma AddDenotesSum(a: Operand, b: Operand)
    requires a.Valid() && b.Valid() && !(a.Scalar? && b.Scalar?)
    ensures forall v :: LinearCoefOf(Add(a, b), v) == LinearCoefOf(a, v) + LinearCoefOf(b, v)
    ensures forall k :: PairCoefOf(Add(a, b), k) == PairCoefOf(a, k) + PairCoefOf(b, k)
    ensures ConstantOf(Add(a, b)) == ConstantOf(a) + ConstantOf(b)
  {
    var r := Add(a, b);
    if a.Quad? || b.Quad? {
      assert r.quadratic == QuadraticPlus(AsQuadratic(a), AsQuadratic(b));
    } else {
      assert r.affine == AffinePlus(AsAffine(a), AsAffine(b));
    }
  }

  /** `a - b` denotes the difference of the two polynomials. */
  lemma SubDenotesDifference(a: Operand, b: Operand)
    requires a.Valid() && b.Valid() && !(a.Scalar? && b.Scalar?)
    ensures forall v :: LinearCoefOf(Sub(a, b), v) == LinearCoefOf(a, v) - LinearCoefOf(b, v)
    ensures forall k :: PairCoefOf(Sub(a, b), k) == PairCoefOf(a, k) - PairCoefOf(b, k)
    ensures ConstantOf(Sub(a, b)) == ConstantOf(a) - ConstantOf(b)
  {
    AddDenotesSum(a, Negate(b));
  }

  /** `s * e` scales every coefficient of `e` by `s`. */
  lemma ScalarTimesDenotesScaling(s: real, e: Operand)
    requires e.Valid() && !e.Scalar?
    ensures forall v :: LinearCoefOf(Mul(Scalar(s), e), v) == s * LinearCoefOf(e, v)
    ensures forall k :: PairCoefOf(Mul(Scalar(s), e), k) == s * PairCoefOf(e, k)
    ensures ConstantOf(Mul(Scalar(s), e)) == s * ConstantOf(e)
  {
    var r := Mul(Scalar(s), e);
    if e.Quad? {
      var q := QuadraticScale(e.quadratic, s);
      assert r == Quad(q);
      forall v ensures LinearCoefOf(r, v) == s * LinearCoefOf(e, v) {
        assert LinearCoefOf(r, v) == QuadraticLinearCoef(q, v);
      }
      forall k ensures PairCoefOf(r, k) == s * PairCoefOf(e, k) {
        assert PairCoefOf(r, k) == QuadraticCoef(q, k);
      }
    } else {
      var f := AffineScale(AsAffine(e), s);
      assert r == Aff(f);
      forall v ensures LinearCoefOf(r, v) == s * LinearCoefOf(e, v) {
        assert LinearCoefOf(r, v) == AffineCoef(f, v);
        assert LinearCoefOf(e, v) == AffineCoef(AsAffine(e), v);
      }
    }
  }

  /** `e * s` scales every coefficient of `e` by `s`. */
  lemma TimesScalarDenotesScaling(e: Operand, s: real)
    requires e.Valid() && !e.Scalar?
    ensures forall v :: LinearCoefOf(Mul(e, Scalar(s)), v) == s * LinearCoefOf(e, v)
    ensures forall k :: PairCoefOf(Mul(e, Scalar(s)), k) == s * PairCoefOf(e, k)
    ensures ConstantOf(Mul(e, Scalar(s))) == s * ConstantOf(e)
  {
    var r := Mul(e, Scalar(s));
    if e.Quad? {
      var q := QuadraticScale(e.quadratic, s);
      assert r == Quad(q);
      forall v ensures LinearCoefOf(r, v) == s * LinearCoefOf(e, v) {
        assert LinearCoefOf(r, v) == QuadraticLinearCoef(q, v);
      }
      forall k ensures PairCoefOf(r, k) == s * PairCoefOf(e, k) {
        assert PairCoefOf(r, k) == QuadraticCoef(q, k);
      }
    } else {
      var f := AffineScale(AsAffine(e), s);
      assert r == Aff(f);
      forall v ensures LinearCoefOf(r, v) == s * LinearCoefOf(e, v) {
        assert LinearCoefOf(r, v) == AffineCoef(f, v);
        assert LinearCoefOf(e, v) == AffineCoef(AsAffine(e), v);
      }
    }
  }

  /** `x_v * x_w` is the single monomial with key `MakePair(v, w)` and coefficient 1, with no linear part. */
  lemma VariableTimesVariable(v: VariableIndex, w: VariableIndex)
    ensures forall k :: PairCoefOf(Mul(Var(v), Var(w)), k) == if k == MakePair(v.index, w.index) then 1.0 else 0.0
    ensures forall u :: LinearCoefOf(Mul(Var(v), Var(w)), u) == 0.0
    ensures ConstantOf(Mul(Var(v), Var(w))) == 0.0
  {
    var q := Mul(Var(v), Var(w)).quadratic;
    assert PairKeys(q.variable1s, q.variable2s) == [MakePair(v.index, w.index)];
    forall k ensures QuadraticCoef(q, k) == if k == MakePair(v.index, w.index) then 1.0 else 0.0 {
      KeySumSingle(1.0, MakePair(v.index, w.index), k);
    }
  }

  /** On an ordered monomial, `x_v * x_w` has the coefficient the product of the two variables' coefficient vectors gives it. */
  lemma VariablePairCoef(v: VariableIndex, w: VariableIndex, p: VariablePair)
    requires p.Ordered()
    ensures (if p == MakePair(v.index, w.index) then 1.0 else 0.0) == ProductPairCoef(
      LinearCoefOf(Var(v), p.var1), LinearCoefOf(Var(v), p.var2), LinearCoefOf(Var(w), p.var1), LinearCoefOf(Var(w), p.var2),
      p.var1 == p.var2)
  {
    MakePairIs(v.index, w.index, p);
  }

  /** The monomial `p` of a product of two degree-1 operands. */
  lemma LinearTimesPair(a: Operand, b: Operand, p: VariablePair)
    requires a.Valid() && b.Valid() && a.Degree() == 1 && b.Degree() == 1
    ensures p.Ordered() ==> PairCoefOf(Mul(a, b), p) == ProductPairCoef(
      LinearCoefOf(a, p.var1), LinearCoefOf(a, p.var2), LinearCoefOf(b, p.var1), LinearCoefOf(b, p.var2), p.var1 == p.var2)
    ensures !p.Ordered() ==> PairCoefOf(Mul(a, b), p) == 0.0
  {
    if a.Var? && b.Var? {
      VariableTimesVariable(a.variable, b.variable);
      if p.Ordered() {
        VariablePairCoef(a.variable, b.variable, p);
      } else {
        MakePairIs(a.variable.index, b.variable.index, p.(var1 := p.var2, var2 := p.var1));
      }
    } else {
      AffineTimesPairs(AsAffine(a), AsAffine(b), p);
    }
  }

  /**
   * The product of two degree-1 operands is the product of the two
   * polynomials: the constants multiply, each linear coefficient is the
   * cross sum of constants and coefficients, and each ordered monomial gets
   * the sum of the coefficient products that reach it; any other key has none.
   */
  lemma LinearTimesDenotesProduct(a: Operand, b: Operand)
    requires a.Valid() && b.Valid() && a.Degree() == 1 && b.Degree() == 1
    ensures forall p: VariablePair | p.Ordered() :: (PairCoefOf(Mul(a, b), p) == ProductPairCoef(
      LinearCoefOf(a, p.var1), LinearCoefOf(a, p.var2), LinearCoefOf(b, p.var1), LinearCoefOf(b, p.var2), p.var1 == p.var2))
    ensures forall p: VariablePair | !p.Ordered() :: PairCoefOf(Mul(a, b), p) == 0.0
    ensures forall v :: LinearCoefOf(Mul(a, b), v) == ProductLinearCoef(ConstantOf(a), LinearCoefOf(a, v), ConstantOf(b), LinearCoefOf(b, v))
    ensures ConstantOf(Mul(a, b)) == ConstantOf(a) * ConstantOf(b)
  {
    forall p: VariablePair {
      LinearTimesPair(a, b, p);
    }
    forall v {
      LinearTimesLinearCoef(a, b, v);
    }
    LinearTimesConstant(a, b);
  }

  /** The coefficient of `x_v` in `(La + ca) * (Lb + cb)` when `La`, `Lb` have no constant and give `x_v` the coefficients `la`, `lb`. */
  function ProductLinearCoef(ca: real, la: real, cb: real, lb: real): real {
    ca * lb + cb * la
  }

  /** The coefficient of `x_v` in a product of two degree-1 operands. */
  lemma LinearTimesLinearCoef(a: Operand, b: Operand, v: Index)
    requires a.Valid() && b.Valid() && a.Degree() == 1 && b.Degree() == 1
    ensures LinearCoefOf(Mul(a, b), v) == ProductLinearCoef(ConstantOf(a), LinearCoefOf(a, v), ConstantOf(b), LinearCoefOf(b, v))
  {
    if a.Var? && b.Var? {
      VariableTimesVariable(a.variable, b.variable);
      assert ConstantOf(a) == 0.0 && ConstantOf(b) == 0.0;
    } else {
      AffineTimesLinearCoef(a, b, v);
    }
  }

  /** `LinearTimesLinearCoef` when the product goes through `AffineTimes`. */
  lemma AffineTimesLinearCoef(a: Operand, b: Operand, v: Index)
    requires a.Valid() && b.Valid() && a.Degree() == 1 && b.Degree() == 1 && !(a.Var? && b.Var?)
    ensures LinearCoefOf(Mul(a, b), v) == ProductLinearCoef(ConstantOf(a), LinearCoefOf(a, v), ConstantOf(b), LinearCoefOf(b, v))
  {
    var fa, fb := AsAffine(a), AsAffine(b);
    MulOfLinearForms(a, b);
    AffineTimesLinearPart(fa, fb);
  }

  /** Two degree-1 operands that are not both variables multiply as linear forms. */
  lemma MulOfLinearForms(a: Operand, b: Operand)
    requires a.Valid() && b.Valid() && a.Degree() == 1 && b.Degree() == 1 && !(a.Var? && b.Var?)
    ensures Mul(a, b) == Quad(AffineTimes(AsAffine(a), AsAffine(b)))
  {
  }

  /** The constant of a product of two degree-1 operands. */
  lemma LinearTimesConstant(a: Operand, b: Operand)
    requires a.Valid() && b.Valid() && a.Degree() == 1 && b.Degree() == 1
    ensures ConstantOf(Mul(a, b)) == ConstantOf(a) * ConstantOf(b)
  {
    if !(a.Var? && b.Var?) {
      var fa, fb := AsAffine(a), AsAffine(b);
      assert Mul(a, b) == Quad(AffineTimes(fa, fb));
      AffineTimesConstant(fa, fb);
    }
  }
}
