/**
 * `ExprBuilder` (include/pyoptinterface/core.hpp:104-142): a mutable
 * accumulator of quadratic terms keyed by ordered variable pairs, affine
 * terms keyed by variable, and an optional constant. Every compound
 * assignment is specified against `Poly`, the value the builder holds, and
 * the algebra of `Poly` is proved on its own.
 */
module Builder {
  import opened Wrappers
  import opened Forms
  import opened Terms

  /** The terms of a builder as a value: what `+=`, `-=` and `*=` compute on. */
  datatype Poly = Poly(quadratic: map<VariablePair, real>, affine: map<Index, real>, constant: Option<real>) {
    /** Quadratic keys are ordered pairs, so `x_i * x_j` and `x_j * x_i` share one entry. */
    predicate Valid() {
      forall p :: p in quadratic ==> p.Ordered()
    }

    /** 2 with a quadratic entry, else 1 with an affine entry, else 0. */
    function Degree(): nat {
      if quadratic != map[] then 2 else if affine != map[] then 1 else 0
    }

    /** No entries and no constant. */
    predicate IsEmpty() {
      quadratic == map[] && affine == map[] && constant.None?
    }
  }

  /** A builder holding the constant `c` alone. */
  function ConstantPoly(c: real): Poly {
    Poly(map[], map[], Some(c))
  }

  /** A builder holding the variable `v` with coefficient one. */
  function VariablePoly(v: VariableIndex): (r: Poly)
    ensures r.Valid() && r.Degree() == 1
    ensures forall w :: CoefOf(r.affine, w) == AffineCoef(AffineVariable(v), w)
  {
    var r := Poly(map[], map[v.index := 1.0], None);
    assert v.index in r.affine;
    assert forall w :: CoefOf(r.affine, w) == AffineCoef(AffineVariable(v), w) by {
      forall w ensures CoefOf(r.affine, w) == AffineCoef(AffineVariable(v), w) {
        if w == v.index {
          assert CoefOf(r.affine, w) == 1.0;
        } else {
          assert CoefOf(r.affine, w) == 0.0;
        }
      }
    }
    r
  }

  /** The terms of a linear form, entries with the same variable merged. */
  function AffinePoly(a: ScalarAffineFunction): (r: Poly)
    requires a.Valid()
    ensures r.Valid() && r.Degree() <= 1 && r.constant == a.constant
    ensures forall v :: CoefOf(r.affine, v) == AffineCoef(a, v)
  {
    Poly(map[], Merged(a.coefficients, a.variables), a.constant)
  }

  /** The terms of a quadratic form, keyed by ordered pair, with its affine part flattened in. */
  function QuadraticPoly(q: ScalarQuadraticFunction): (r: Poly)
    requires q.Valid()
    ensures r.Valid()
    ensures forall p :: CoefOf(r.quadratic, p) == QuadraticCoef(q, p)
    ensures forall v :: CoefOf(r.affine, v) == QuadraticLinearCoef(q, v)
    ensures ConstantValue(r.constant) == QuadraticConstant(q)
  {
    var keys := PairKeys(q.variable1s, q.variable2s);
    var quadratic := Merged(q.coefficients, keys);
    assert Valid: forall p :: p in quadratic ==> p.Ordered() by {
      forall p | p in quadratic ensures p.Ordered() {
        assert p in Elements(keys);
      }
    }
    match q.affinePart
    case None => Poly(quadratic, map[], None)
    case Some(a) => Poly(quadratic, Merged(a.coefficients, a.variables), a.constant)
  }

  /** Sum entry by entry; the constant is present when either side has one. */
  function Plus(x: Poly, y: Poly): (r: Poly)
    ensures x.Valid() && y.Valid() ==> r.Valid()
    ensures forall p :: CoefOf(r.quadratic, p) == CoefOf(x.quadratic, p) + CoefOf(y.quadratic, p)
    ensures forall v :: CoefOf(r.affine, v) == CoefOf(x.affine, v) + CoefOf(y.affine, v)
    ensures r.constant.None? <==> x.constant.None? && y.constant.None?
    ensures ConstantValue(r.constant) == ConstantValue(x.constant) + ConstantValue(y.constant)
  {
    Poly(MapAdd(x.quadratic, y.quadratic), MapAdd(x.affine, y.affine), OptPlus(x.constant, y.constant))
  }

  /** Every coefficient and the constant multiplied by `s`; no entry appears or disappears. */
  function Scaled(x: Poly, s: real): (r: Poly)
    ensures r.quadratic.Keys == x.quadratic.Keys && r.affine.Keys == x.affine.Keys
    ensures x.Valid() ==> r.Valid()
    ensures r.constant.None? <==> x.constant.None?
    ensures ConstantValue(r.constant) == s * ConstantValue(x.constant)
  {
    Poly(MapScale(x.quadratic, s), MapScale(x.affine, s), OptScale(x.constant, s))
  }

  lemma ScaledCoefficients(x: Poly, s: real)
    ensures forall p :: CoefOf(Scaled(x, s).quadratic, p) == s * CoefOf(x.quadratic, p)
    ensures forall v :: CoefOf(Scaled(x, s).affine, v) == s * CoefOf(x.affine, v)
  {
    forall p ensures CoefOf(Scaled(x, s).quadratic, p) == s * CoefOf(x.quadratic, p) {
      MapScaleCoef(x.quadratic, s, p);
    }
    forall v ensures CoefOf(Scaled(x, s).affine, v) == s * CoefOf(x.affine, v) {
      MapScaleCoef(x.affine, s, v);
    }
  }

  /** The degree of a scaled builder is unchanged, even when `s` is zero: entries are kept. */
  lemma ScaledDegree(x: Poly, s: real)
    ensures Scaled(x, s).Degree() == x.Degree()
  {
    assert Scaled(x, s).quadratic == map[] <==> x.quadratic == map[];
    assert Scaled(x, s).affine == map[] <==> x.affine == map[];
  }

  /** Subtraction is addition of the operand scaled by minus one. */
  function Minus(x: Poly, y: Poly): Poly {
    Plus(x, Scaled(y, -1.0))
  }

  /** `m` scaled by an optional constant; an absent constant contributes no entries. */
  function ScaleBy<K(!new)>(m: map<K, real>, c: Option<real>): (r: map<K, real>)
    ensures r.Keys <= m.Keys
  {
    if c.Some? then MapScale(m, c.value) else map[]
  }

  /** The product of two constants, present only when both are. */
  function OptTimes(a: Option<real>, b: Option<real>): (r: Option<real>)
    ensures r.Some? <==> a.Some? && b.Some?
    ensures ConstantValue(r) == ConstantValue(a) * ConstantValue(b)
  {
    if a.Some? && b.Some? then Some(a.value * b.value) else None
  }

  /** The ordered pairs with one variable from each set. */
  function PairsOf(s: set<Index>, t: set<Index>): set<VariablePair> {
    set i, j | i in s && j in t :: MakePair(i, j)
  }

  /**
   * The coefficient of the ordered pair `p` in the product of the linear
   * parts `a` and `b`: `a_u * b_u` for a square `x_u * x_u`, and
   * `a_u * b_w + a_w * b_u` for `u < w`, where both orders of the product
   * land on the same ordered pair.
   */
  function CrossCoef(a: map<Index, real>, b: map<Index, real>, p: VariablePair): real {
    if p.var1 == p.var2 then CoefOf(a, p.var1) * CoefOf(b, p.var1)
    else CoefOf(a, p.var1) * CoefOf(b, p.var2) + CoefOf(a, p.var2) * CoefOf(b, p.var1)
  }

  /** The quadratic entries of the product of two linear parts. */
  function Cross(a: map<Index, real>, b: map<Index, real>): (r: map<VariablePair, real>)
    ensures r.Keys == PairsOf(a.Keys, b.Keys)
    ensures forall p :: p in r ==> p.Ordered()
    ensures forall p :: p in r ==> r[p] == CrossCoef(a, b, p)
  {
    map p | p in PairsOf(a.Keys, b.Keys) :: CrossCoef(a, b, p)
  }

  /** The quadratic entries of a product: the cross products of the linear parts, and each side's quadratic entries scaled by the other's constant. */
  function ProductQuadratic(x: Poly, y: Poly): (r: map<VariablePair, real>)
    ensures x.Valid() && y.Valid() ==> forall p :: p in r ==> p.Ordered()
  {
    var scaled := MapAdd(ScaleBy(x.quadratic, y.constant), ScaleBy(y.quadratic, x.constant));
    var cross := Cross(x.affine, y.affine);
    assert x.Valid() && y.Valid() ==> forall p :: p in scaled ==> p.Ordered();
    MapAdd(cross, scaled)
  }

  /** The affine entries of a product: each side's linear part scaled by the other's constant. */
  function ProductAffine(x: Poly, y: Poly): map<Index, real> {
    MapAdd(ScaleBy(x.affine, y.constant), ScaleBy(y.affine, x.constant))
  }

  /**
   * The product of two builders whose degrees add up to at most two: the
   * cross products of the linear parts, each side's terms scaled by the
   * other's constant, and the product of the constants.
   */
  function Times(x: Poly, y: Poly): (r: Poly)
    requires x.Degree() + y.Degree() <= 2
    ensures x.Valid() && y.Valid() ==> r.Valid()
  {
    Poly(ProductQuadratic(x, y), ProductAffine(x, y), OptTimes(x.constant, y.constant))
  }

  /** A product never exceeds degree two, and two linear factors give a quadratic. */
  lemma TimesDegree(x: Poly, y: Poly)
    requires x.Degree() + y.Degree() <= 2
    ensures Times(x, y).Degree() <= x.Degree() + y.Degree()
    ensures x.Degree() == 1 && y.Degree() == 1 ==> Times(x, y).Degree() == 2
  {
    var r := Times(x, y);
    if x.Degree() == 1 && y.Degree() == 1 {
      var i :| i in x.affine;
      var j :| j in y.affine;
      assert MakePair(i, j) in PairsOf(x.affine.Keys, y.affine.Keys);
      assert MakePair(i, j) in r.quadratic;
    } else if x.Degree() + y.Degree() == 1 {
      assert x.quadratic == map[] && y.quadratic == map[];
      assert r.quadratic == map[];
    } else if x.Degree() == 0 && y.Degree() == 0 {
      assert r.quadratic == map[] && r.affine == map[];
    }
  }

  /** Scaling by an absent constant is scaling by zero. */
  lemma ScaleByCoef<K(!new)>(m: map<K, real>, c: Option<real>, k: K)
    ensures CoefOf(ScaleBy(m, c), k) == ConstantValue(c) * CoefOf(m, k)
  {
    if c.Some? {
      MapScaleCoef(m, c.value, k);
    }
  }

  /** Off the product's pairs a cross coefficient vanishes, so `Cross` holds every ordered pair's coefficient. */
  lemma CrossCoefOf(a: map<Index, real>, b: map<Index, real>, p: VariablePair)
    requires p.Ordered()
    ensures CoefOf(Cross(a, b), p) == CrossCoef(a, b, p)
  {
    var u, w := p.var1, p.var2;
    if u in a && w in b {
      assert MakePair(u, w) == p;
    } else if w in a && u in b {
      assert MakePair(w, u) == p;
    } else {
      CrossCoefVanishes(a, b, p);
    }
  }

  /** A pair none of whose orders is a product of a key of `a` and a key of `b` gets no cross coefficient. */
  lemma CrossCoefVanishes(a: map<Index, real>, b: map<Index, real>, p: VariablePair)
    requires !(p.var1 in a && p.var2 in b) && !(p.var2 in a && p.var1 in b)
    ensures CrossCoef(a, b, p) == 0.0
  {
    assert CoefOf(a, p.var1) * CoefOf(b, p.var2) == 0.0;
    assert CoefOf(a, p.var2) * CoefOf(b, p.var1) == 0.0;
  }

  /** The linear coefficient of `v` in a product: `cy * ax_v + cx * ay_v`, absent constants counting as zero. */
  lemma ProductAffineCoef(x: Poly, y: Poly, v: Index)
    ensures CoefOf(ProductAffine(x, y), v)
      == ConstantValue(y.constant) * CoefOf(x.affine, v) + ConstantValue(x.constant) * CoefOf(y.affine, v)
  {
    ScaleByCoef(x.affine, y.constant, v);
    ScaleByCoef(y.affine, x.constant, v);
  }

  /** Each side's quadratic entries scaled by the other's constant, summed per pair. */
  lemma ScaledQuadraticCoef(x: Poly, y: Poly, p: VariablePair)
    ensures CoefOf(MapAdd(ScaleBy(x.quadratic, y.constant), ScaleBy(y.quadratic, x.constant)), p)
      == ConstantValue(y.constant) * CoefOf(x.quadratic, p) + ConstantValue(x.constant) * CoefOf(y.quadratic, p)
  {
    ScaleByCoef(x.quadratic, y.constant, p);
    ScaleByCoef(y.quadratic, x.constant, p);
  }

  /**
   * The coefficient of the ordered pair `p` in a product
   * `(qx + ax + cx) * (qy + ay + cy)`: the cross coefficient of `ax * ay`
   * plus `cy * qx_p + cx * qy_p`, absent constants counting as zero.
   */
  lemma ProductQuadraticCoef(x: Poly, y: Poly, p: VariablePair)
    requires p.Ordered()
    ensures CoefOf(ProductQuadratic(x, y), p)
      == CrossCoef(x.affine, y.affine, p) + ConstantValue(y.constant) * CoefOf(x.quadratic, p)
      + ConstantValue(x.constant) * CoefOf(y.quadratic, p)
  {
    var scaled := MapAdd(ScaleBy(x.quadratic, y.constant), ScaleBy(y.quadratic, x.constant));
    var cross := Cross(x.affine, y.affine);
    assert ProductQuadratic(x, y) == MapAdd(cross, scaled);
    ScaledQuadraticCoef(x, y, p);
    CrossCoefOf(x.affine, y.affine, p);
  }

  /** Every coefficient of a product, read off the two factors. */
  lemma TimesCoefficients(x: Poly, y: Poly)
    requires x.Degree() + y.Degree() <= 2
    ensures forall v: Index :: (CoefOf(Times(x, y).affine, v)
      == ConstantValue(y.constant) * CoefOf(x.affine, v) + ConstantValue(x.constant) * CoefOf(y.affine, v))
    ensures forall p: VariablePair | p.Ordered() :: (CoefOf(Times(x, y).quadratic, p)
      == CrossCoef(x.affine, y.affine, p) + ConstantValue(y.constant) * CoefOf(x.quadratic, p)
      + ConstantValue(x.constant) * CoefOf(y.quadratic, p))
    ensures ConstantValue(Times(x, y).constant) == ConstantValue(x.constant) * ConstantValue(y.constant)
  {
    forall v: Index {
      ProductAffineCoef(x, y, v);
    }
    forall p: VariablePair | p.Ordered() {
      ProductQuadraticCoef(x, y, p);
    }
  }

  lemma PairsOfCommutes(s: set<Index>, t: set<Index>)
    ensures PairsOf(s, t) == PairsOf(t, s)
  {
    forall p | p in PairsOf(s, t) ensures p in PairsOf(t, s) {
      var i, j :| i in s && j in t && p == MakePair(i, j);
      MakePairSymmetric(i, j, p);
    }
    forall p | p in PairsOf(t, s) ensures p in PairsOf(s, t) {
      var j, i :| j in t && i in s && p == MakePair(j, i);
      MakePairSymmetric(j, i, p);
    }
  }

  lemma CrossCoefCommutes(a: map<Index, real>, b: map<Index, real>, p: VariablePair)
    ensures CrossCoef(a, b, p) == CrossCoef(b, a, p)
  {
    var a1, a2, b1, b2 := CoefOf(a, p.var1), CoefOf(a, p.var2), CoefOf(b, p.var1), CoefOf(b, p.var2);
    if p.var1 == p.var2 {
      assert CrossCoef(a, b, p) == a1 * b1 && CrossCoef(b, a, p) == b1 * a1;
    } else {
      assert CrossCoef(a, b, p) == a1 * b2 + a2 * b1 && CrossCoef(b, a, p) == b1 * a2 + b2 * a1;
    }
  }

  lemma CrossCommutes(a: map<Index, real>, b: map<Index, real>)
    ensures Cross(a, b) == Cross(b, a)
  {
    PairsOfCommutes(a.Keys, b.Keys);
    forall p | p in Cross(a, b) ensures Cross(a, b)[p] == Cross(b, a)[p] {
      CrossCoefCommutes(a, b, p);
    }
  }

  /** The product does not depend on the order of its factors. */
  lemma TimesCommutes(x: Poly, y: Poly)
    requires x.Degree() + y.Degree() <= 2
    ensures Times(x, y) == Times(y, x)
  {
    assert ProductQuadratic(x, y) == ProductQuadratic(y, x) by {
      CrossCommutes(x.affine, y.affine);
      MapAddCommutes(ScaleBy(x.quadratic, y.constant), ScaleBy(y.quadratic, x.constant));
    }
    assert ProductAffine(x, y) == ProductAffine(y, x) by {
      MapAddCommutes(ScaleBy(x.affine, y.constant), ScaleBy(y.affine, x.constant));
    }
    if x.constant.Some? && y.constant.Some? {
      assert x.constant.value * y.constant.value == y.constant.value * x.constant.value;
    }
  }

  /** Multiplying by a lone constant is scaling, except that an absent constant on the builder stays absent. */
  lemma TimesConstantIsScaling(x: Poly, c: real)
    requires x.Degree() <= 2
    ensures Times(x, ConstantPoly(c)) == Scaled(x, c)
  {
    var k := ConstantPoly(c);
    assert Cross(x.affine, map[]) == map[];
    assert ProductQuadratic(x, k) == MapScale(x.quadratic, c) by {
      MapsEqual(MapAdd(map[], MapAdd(MapScale(x.quadratic, c), map[])), MapScale(x.quadratic, c));
    }
    assert ProductAffine(x, k) == MapScale(x.affine, c) by {
      MapsEqual(MapAdd(MapScale(x.affine, c), map[]), MapScale(x.affine, c));
    }
    if x.constant.Some? {
      var l, r := OptTimes(x.constant, k.constant), OptScale(x.constant, c);
      assert l.Some? && r.Some? && l.value == r.value;
    }
  }

  /** Adding to the empty builder gives the operand back. */
  lemma PlusEmpty(x: Poly)
    ensures Plus(Poly(map[], map[], None), x) == x
  {
    MapsEqual(MapAdd(map[], x.quadratic), x.quadratic);
    MapsEqual(MapAdd(map[], x.affine), x.affine);
  }

  /** Adding a quadratic form is adding its quadratic entries, then its affine part when it has one. */
  lemma PlusQuadraticPoly(x: Poly, q: ScalarQuadraticFunction)
    requires q.Valid()
    ensures var y := Poly(MapAdd(x.quadratic, QuadraticPoly(q).quadratic), x.affine, x.constant);
      Plus(x, QuadraticPoly(q)) == if q.affinePart.Some? then Plus(y, AffinePoly(q.affinePart.value)) else y
  {
    var y := Poly(MapAdd(x.quadratic, QuadraticPoly(q).quadratic), x.affine, x.constant);
    MapsEqual(MapAdd(y.quadratic, map[]), y.quadratic);
    MapsEqual(MapAdd(x.affine, map[]), x.affine);
  }

  class ExprBuilder {
    var quadraticTerms: map<VariablePair, real>
    var affineTerms: map<Index, real>
    var constantTerm: Option<real>

    /** The builder's terms as a value. */
    function Value(): Poly
      reads this
    {
      Poly(quadraticTerms, affineTerms, constantTerm)
    }

    ghost predicate Valid()
      reads this
    {
      Value().Valid()
    }

    /** `ExprBuilder()`: no terms and no constant. */
    constructor ()
      ensures Valid() && Empty()
    {
      quadraticTerms, affineTerms, constantTerm := map[], map[], None;
    }

    /** `ExprBuilder(v)`: the variable alone. */
    constructor FromVariable(v: VariableIndex)
      ensures Valid() && Value() == VariablePoly(v)
    {
      quadraticTerms, affineTerms, constantTerm := map[], map[v.index := 1.0], None;
    }

    /** `ExprBuilder(a)`: the terms of a linear form, entries with the same variable merged. */
    constructor FromAffine(a: ScalarAffineFunction)
      requires a.Valid()
      ensures Valid() && Value() == AffinePoly(a)
    {
      quadraticTerms, affineTerms, constantTerm := map[], map[], None;
      new;
      PlusAffine(a);
      PlusEmpty(AffinePoly(a));
    }

    /** `ExprBuilder(q)`: the terms of a quadratic form, with `(i, j)` and `(j, i)` merged. */
    constructor FromQuadratic(q: ScalarQuadraticFunction)
      requires q.Valid()
      ensures Valid() && Value() == QuadraticPoly(q)
    {
      quadraticTerms, affineTerms, constantTerm := map[], map[], None;
      new;
      PlusQuadratic(q);
      PlusEmpty(QuadraticPoly(q));
    }

    /** `empty()`: no entries and no constant. */
    function Empty(): (e: bool)
      reads this
      ensures e <==> Degree() == 0 && constantTerm.None?
    {
      quadraticTerms == map[] && affineTerms == map[] && constantTerm.None?
    }

    /** `degree()`. */
    function Degree(): (d: nat)
      reads this
      ensures d <= 2
      ensures d == 2 <==> quadraticTerms != map[]
      ensures d == 0 <==> quadraticTerms == map[] && affineTerms == map[]
    {
      Value().Degree()
    }

    /** `clear()`: back to the empty builder. */
    method Clear()
      modifies this
      ensures Valid() && Empty()
    {
      quadraticTerms, affineTerms, constantTerm := map[], map[], None;
    }

    /** `_add_affine_term(i, c)`: accumulate into the entry of `i`. */
    method AddAffineTerm(i: Index, c: real)
      modifies this
      ensures affineTerms == AddTerm(old(affineTerms), i, c)
      ensures quadraticTerms == old(quadraticTerms) && constantTerm == old(constantTerm)
    {
      affineTerms := AddTerm(affineTerms, i, c);
    }

    /** `_add_quadratic_term(i, j, c)`: accumulate into the entry of the ordered pair of `i` and `j`. */
    method AddQuadraticTerm(i: Index, j: Index, c: real)
      requires Valid()
      modifies this
      ensures Valid()
      ensures quadraticTerms == AddTerm(old(quadraticTerms), MakePair(i, j), c)
      ensures affineTerms == old(affineTerms) && constantTerm == old(constantTerm)
    {
      quadraticTerms := AddTerm(quadraticTerms, MakePair(i, j), c);
    }

    /** `+= c`: the constant becomes `c` when absent, and grows by `c` otherwise. */
    method PlusConstant(c: real)
      modifies this
      ensures Value() == Plus(old(Value()), ConstantPoly(c))
    {
      constantTerm := OptPlus(constantTerm, Some(c));
      assert MapAdd(quadraticTerms, map[]) == quadraticTerms;
      assert MapAdd(affineTerms, map[]) == affineTerms;
    }

    /** `+= v`. */
    method PlusVariable(v: VariableIndex)
      modifies this
      ensures Value() == Plus(old(Value()), VariablePoly(v))
    {
      AddAffineTerm(v.index, 1.0);
      assert MapAdd(quadraticTerms, map[]) == quadraticTerms;
      MapsEqual(affineTerms, MapAdd(old(affineTerms), map[v.index := 1.0]));
      assert OptPlus(constantTerm, None) == constantTerm;
    }

    /** `+= a`: each term of `a` accumulated in turn, then the constants added. */
    method PlusAffine(a: ScalarAffineFunction)
      requires a.Valid()
      modifies this
      ensures Value() == Plus(old(Value()), AffinePoly(a))
    {
      affineTerms := AccumulateInto(affineTerms, a.coefficients, a.variables);
      AccumulatedIsMapAdd(old(affineTerms), a.coefficients, a.variables, affineTerms);
      constantTerm := OptPlus(constantTerm, a.constant);
      assert MapAdd(quadraticTerms, map[]) == quadraticTerms;
    }

    /** The quadratic terms of `q` accumulated under their ordered pairs; the affine part is left to the caller. */
    method PlusQuadraticTerms(q: ScalarQuadraticFunction)
      requires q.Valid()
      modifies this
      ensures old(Valid()) ==> Valid()
      ensures Value() == Poly(MapAdd(old(quadraticTerms), QuadraticPoly(q).quadratic), old(affineTerms), old(constantTerm))
    {
      var keys := PairKeys(q.variable1s, q.variable2s);
      quadraticTerms := AccumulateInto(quadraticTerms, q.coefficients, keys);
      AccumulatedIsMapAdd(old(quadraticTerms), q.coefficients, keys, quadraticTerms);
      assert old(Valid()) ==> Valid() by {
        forall p | p in quadraticTerms && old(Valid()) ensures p.Ordered() {
          if p !in old(quadraticTerms) {
            assert p in Elements(keys);
          }
        }
      }
    }

    /** `+= q`: each quadratic term accumulated under its ordered pair, then the affine part added. */
    method PlusQuadratic(q: ScalarQuadraticFunction)
      requires q.Valid()
      modifies this
      ensures old(Valid()) ==> Valid()
      ensures Value() == Plus(old(Value()), QuadraticPoly(q))
    {
      ghost var x := Value();
      PlusQuadraticTerms(q);
      if q.affinePart.Some? {
        PlusAffine(q.affinePart.value);
      }
      PlusQuadraticPoly(x, q);
    }

    /** `+= t`: the other builder's entries added entry by entry (read before any write, so `t` may be this builder). */
    method PlusBuilder(t: ExprBuilder)
      modifies this
      ensures Value() == Plus(old(Value()), old(t.Value()))
    {
      var other := t.Value();
      quadraticTerms := MapAdd(quadraticTerms, other.quadratic);
      affineTerms := MapAdd(affineTerms, other.affine);
      constantTerm := OptPlus(constantTerm, other.constant);
    }

    /** `-= c`. */
    method MinusConstant(c: real)
      modifies this
      ensures Value() == Minus(old(Value()), ConstantPoly(c))
    {
      PlusConstant(-1.0 * c);
      assert Scaled(ConstantPoly(c), -1.0) == ConstantPoly(-1.0 * c);
    }

    /** `-= v`. */
    method MinusVariable(v: VariableIndex)
      modifies this
      ensures Value() == Minus(old(Value()), VariablePoly(v))
    {
      PlusAffine(ScaledVariable(v, -1.0));
      assert AffinePoly(ScaledVariable(v, -1.0)) == Scaled(VariablePoly(v), -1.0) by {
        MapsEqual(Merged([-1.0], [v.index]), MapScale(map[v.index := 1.0], -1.0));
      }
    }

    /** `-= a`: the terms of `a` with their signs flipped. */
    method MinusAffine(a: ScalarAffineFunction)
      requires a.Valid()
      modifies this
      ensures Value() == Minus(old(Value()), AffinePoly(a))
    {
      var negated := AffineScale(a, -1.0);
      PlusAffine(negated);
      NegatedAffinePoly(a);
    }

    /** `-= q`. */
    method MinusQuadratic(q: ScalarQuadraticFunction)
      requires q.Valid()
      modifies this
      ensures old(Valid()) ==> Valid()
      ensures Value() == Minus(old(Value()), QuadraticPoly(q))
    {
      var negated := QuadraticScale(q, -1.0);
      PlusQuadratic(negated);
      NegatedQuadraticPoly(q);
    }

    /** `-= t`. */
    method MinusBuilder(t: ExprBuilder)
      modifies this
      ensures Value() == Minus(old(Value()), old(t.Value()))
    {
      var other := Scaled(t.Value(), -1.0);
      quadraticTerms := MapAdd(quadraticTerms, other.quadratic);
      affineTerms := MapAdd(affineTerms, other.affine);
      constantTerm := OptPlus(constantTerm, other.constant);
    }

    /** `*= c`: every coefficient and the constant scaled; an absent constant stays absent. */
    method TimesConstant(c: real)
      modifies this
      ensures Value() == Scaled(old(Value()), c)
    {
      quadraticTerms := MapScale(quadraticTerms, c);
      affineTerms := MapScale(affineTerms, c);
      constantTerm := OptScale(constantTerm, c);
    }

    /** `*= t` for any operand whose degree keeps the product within degree two. */
    method TimesPoly(y: Poly)
      requires Degree() + y.Degree() <= 2
      modifies this
      ensures Value() == Times(old(Value()), y)
    {
      var r := Times(Value(), y);
      quadraticTerms, affineTerms, constantTerm := r.quadratic, r.affine, r.constant;
    }

    /** `*= v`: only a builder of degree at most one may be multiplied by a variable. */
    method TimesVariable(v: VariableIndex)
      requires Degree() <= 1
      modifies this
      ensures Value() == Times(old(Value()), VariablePoly(v))
    {
      TimesPoly(VariablePoly(v));
    }

    /** `*= a`. */
    method TimesAffine(a: ScalarAffineFunction)
      requires a.Valid() && Degree() + AffinePoly(a).Degree() <= 2
      modifies this
      ensures Value() == Times(old(Value()), AffinePoly(a))
    {
      TimesPoly(AffinePoly(a));
    }

    /** `*= q`. */
    method TimesQuadratic(q: ScalarQuadraticFunction)
      requires q.Valid() && Degree() + QuadraticPoly(q).Degree() <= 2
      modifies this
      ensures Value() == Times(old(Value()), QuadraticPoly(q))
    {
      TimesPoly(QuadraticPoly(q));
    }

    /** `*= t`. */
    method TimesBuilder(t: ExprBuilder)
      requires Degree() + t.Degree() <= 2
      modifies this
      ensures Value() == Times(old(Value()), old(t.Value()))
    {
      TimesPoly(t.Value());
    }

    /** `clean_nearzero_terms(threshold)`: entries below the threshold are removed; the constant stays. */
    method CleanNearzeroTerms(threshold: real)
      modifies this
      ensures quadraticTerms == Kept(old(quadraticTerms), threshold)
      ensures affineTerms == Kept(old(affineTerms), threshold)
      ensures constantTerm == old(constantTerm)
      ensures old(Valid()) ==> Valid()
    {
      quadraticTerms := Kept(quadraticTerms, threshold);
      affineTerms := Kept(affineTerms, threshold);
    }

    /** `ScalarAffineFunction(const ExprBuilder &)`: the affine entries and the constant, exactly. */
    method ToAffine() returns (f: ScalarAffineFunction)
      requires Degree() <= 1
      ensures f.Valid() && Distinct(f.variables) && Elements(f.variables) == affineTerms.Keys
      ensures forall v :: AffineCoef(f, v) == CoefOf(affineTerms, v)
      ensures f.constant == constantTerm
    {
      var cs, vs := Materialize(affineTerms);
      f := ScalarAffineFunction(cs, vs, constantTerm);
    }

    /**
     * `ScalarQuadraticFunction(const ExprBuilder &)`: the quadratic entries
     * under their ordered pairs, and an affine part holding the affine
     * entries and the constant when either exists.
     */
    method ToQuadratic() returns (q: ScalarQuadraticFunction)
      requires Valid()
      ensures q.Valid() && Distinct(PairKeys(q.variable1s, q.variable2s))
      ensures Elements(PairKeys(q.variable1s, q.variable2s)) == quadraticTerms.Keys
      ensures forall i :: 0 <= i < q.Size() ==> q.variable1s[i] <= q.variable2s[i]
      ensures forall p :: QuadraticCoef(q, p) == CoefOf(quadraticTerms, p)
      ensures forall v :: QuadraticLinearCoef(q, v) == CoefOf(affineTerms, v)
      ensures QuadraticConstant(q) == ConstantValue(constantTerm)
      ensures q.affinePart.None? <==> affineTerms == map[] && constantTerm.None?
      ensures q.affinePart.Some? ==>
        && Distinct(q.affinePart.value.variables)
        && Elements(q.affinePart.value.variables) == affineTerms.Keys
        && q.affinePart.value.constant == constantTerm
    {
      var cs, ps := Materialize(quadraticTerms);
      PairKeysOfOrdered(ps);
      var affinePart := None;
      if affineTerms != map[] || constantTerm.Some? {
        var acs, avs := Materialize(affineTerms);
        affinePart := Some(ScalarAffineFunction(acs, avs, constantTerm));
      } else {
        forall v ensures CoefOf(affineTerms, v) == 0.0 { }
      }
      q := ScalarQuadraticFunction(cs, Firsts(ps), Seconds(ps), affinePart);
    }
  }

  lemma NegatedAffinePoly(a: ScalarAffineFunction)
    requires a.Valid()
    ensures AffinePoly(AffineScale(a, -1.0)) == Scaled(AffinePoly(a), -1.0)
  {
    var n := AffineScale(a, -1.0);
    ScaledCoefficients(AffinePoly(a), -1.0);
    MapsEqual(AffinePoly(n).affine, Scaled(AffinePoly(a), -1.0).affine);
  }

  lemma NegatedQuadraticPoly(q: ScalarQuadraticFunction)
    requires q.Valid()
    ensures QuadraticPoly(QuadraticScale(q, -1.0)) == Scaled(QuadraticPoly(q), -1.0)
  {
    var n := QuadraticScale(q, -1.0);
    var x, y := QuadraticPoly(n), Scaled(QuadraticPoly(q), -1.0);
    ScaledCoefficients(QuadraticPoly(q), -1.0);
    assert x.quadratic.Keys == y.quadratic.Keys by {
      assert PairKeys(n.variable1s, n.variable2s) == PairKeys(q.variable1s, q.variable2s);
    }
    MapsEqual(x.quadratic, y.quadratic);
    match q.affinePart {
      case None =>
      case Some(a) =>
        NegatedAffinePoly(a);
    }
  }

  /** The free `+` on linear forms and `+=` on a builder agree: both add coefficient-wise and keep a constant when either side has one. */
  lemma AffinePlusAgrees(a: ScalarAffineFunction, b: ScalarAffineFunction)
    requires a.Valid() && b.Valid()
    ensures AffinePoly(AffinePlus(a, b)) == Plus(AffinePoly(a), AffinePoly(b))
  {
    var l, r := AffinePoly(AffinePlus(a, b)), Plus(AffinePoly(a), AffinePoly(b));
    assert l.affine.Keys == r.affine.Keys by {
      assert AffinePlus(a, b).variables == a.variables + b.variables;
    }
    MapsEqual(l.affine, r.affine);
    if l.constant.Some? {
      assert r.constant.Some? && l.constant.value == r.constant.value;
    }
  }

  /**
   * Accumulating `x_i * x_j` and then `x_j * x_i` leaves one entry, under
   * the ordered pair, holding the sum of both coefficients.
   */
  method SymmetricTermsMerge(i: Index, j: Index, c1: real, c2: real) returns (b: ExprBuilder)
    ensures b.quadraticTerms == map[MakePair(i, j) := c1 + c2]
    ensures b.affineTerms == map[] && b.constantTerm.None?
  {
    b := new ExprBuilder();
    b.AddQuadraticTerm(i, j, c1);
    b.AddQuadraticTerm(j, i, c2);
    MakePairSymmetric(i, j, MakePair(i, j));
  }

  /**
   * A linear form loaded into a builder and frozen back keeps exactly its
   * coefficients and its constant, with entries of the same variable merged.
   */
  method AffineRoundTrip(a: ScalarAffineFunction) returns (g: ScalarAffineFunction)
    requires a.Valid()
    ensures g.Valid() && Distinct(g.variables) && Elements(g.variables) == Elements(a.variables)
    ensures forall v :: AffineCoef(g, v) == AffineCoef(a, v)
    ensures g.constant == a.constant
  {
    var b := new ExprBuilder.FromAffine(a);
    g := b.ToAffine();
  }

  /**
   * A quadratic form loaded into a builder and frozen back keeps exactly its
   * pair keys, variables and coefficients, with entries of the same key
   * merged and every pair stored in order. The affine part comes back
   * exactly when it held a term or a constant.
   */
  method QuadraticRoundTrip(q: ScalarQuadraticFunction) returns (g: ScalarQuadraticFunction)
    requires q.Valid()
    ensures g.Valid() && Distinct(PairKeys(g.variable1s, g.variable2s))
    ensures Elements(PairKeys(g.variable1s, g.variable2s)) == Elements(PairKeys(q.variable1s, q.variable2s))
    ensures forall i :: 0 <= i < g.Size() ==> g.variable1s[i] <= g.variable2s[i]
    ensures forall p :: QuadraticCoef(g, p) == QuadraticCoef(q, p)
    ensures forall v :: QuadraticLinearCoef(g, v) == QuadraticLinearCoef(q, v)
    ensures QuadraticConstant(g) == QuadraticConstant(q)
    ensures g.affinePart.Some? <==>
      q.affinePart.Some? && (q.affinePart.value.variables != [] || q.affinePart.value.constant.Some?)
    ensures g.affinePart.Some? ==>
      && Elements(g.affinePart.value.variables) == Elements(q.affinePart.value.variables)
      && g.affinePart.value.constant == q.affinePart.value.constant
  {
    var b := new ExprBuilder.FromQuadratic(q);
    g := b.ToQuadratic();
  }
}
