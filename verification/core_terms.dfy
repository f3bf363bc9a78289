/**
 * Coefficient maps, the representation `ExprBuilder` keeps its terms in
 * (include/pyoptinterface/core.hpp:106-107): one entry per variable, or per
 * ordered variable pair. Merging a form's term list into such a map sums the
 * entries that share a key; `canonicalize` merges, drops the entries whose
 * magnitude is below a threshold, and writes the map back as parallel
 * sequences.
 */
module Terms {
  import opened Wrappers
  import opened Forms

  /** The coefficient of `k` in a map, zero when `k` has no entry. */
  function CoefOf<K>(m: map<K, real>, k: K): real {
    if k in m then m[k] else 0.0
  }

  /** The distinct elements of a sequence. */
  function Elements<K>(ks: seq<K>): set<K> {
    set k | k in ks
  }

  /** Accumulate `c` into the entry of `k`, creating it when absent. */
  function AddTerm<K(!new)>(m: map<K, real>, k: K, c: real): (r: map<K, real>)
    ensures r.Keys == m.Keys + {k}
    ensures forall j :: CoefOf(r, j) == if j == k then CoefOf(m, j) + c else CoefOf(m, j)
  {
    m[k := CoefOf(m, k) + c]
  }

  /** A term list merged into a map: the keys that occur, each with the sum of its coefficients. */
  function Merged<K(!new)>(cs: seq<real>, ks: seq<K>): (m: map<K, real>)
    requires |cs| == |ks|
    ensures m.Keys == Elements(ks)
    ensures forall k :: CoefOf(m, k) == KeySum(cs, ks, k)
  {
    if cs == [] then map[]
    else
      var n := |cs| - 1;
      assert Elements(ks) == Elements(ks[..n]) + {ks[n]} by {
        assert ks == ks[..n] + [ks[n]];
      }
      AddTerm(Merged(cs[..n], ks[..n]), ks[n], cs[n])
  }

  /** The magnitude of a coefficient. */
  function Abs(c: real): real {
    if c < 0.0 then -c else c
  }

  /** A coefficient as `canonicalize` leaves it: dropped (zero) when its magnitude is below `t`. */
  function Trim(c: real, t: real): real {
    if Abs(c) >= t then c else 0.0
  }

  /** The entries whose magnitude is at least `t`; the others are removed. */
  function Kept<K(!new)>(m: map<K, real>, t: real): (r: map<K, real>)
    ensures r.Keys <= m.Keys
    ensures forall k :: k in r <==> k in m && Abs(m[k]) >= t
    ensures forall k :: k in r ==> Abs(r[k]) >= t
    ensures forall k :: CoefOf(r, k) == Trim(CoefOf(m, k), t)
  {
    map k | k in m && Abs(m[k]) >= t :: m[k]
  }

  /** Dropping near-zero entries twice drops nothing more. */
  lemma KeptIdempotent<K(!new)>(m: map<K, real>, t: real)
    ensures Kept(Kept(m, t), t) == Kept(m, t)
  {
  }

  /** Two maps added entry by entry; a key present in either is present in the sum. */
  function MapAdd<K(!new)>(m1: map<K, real>, m2: map<K, real>): (r: map<K, real>)
    ensures r.Keys == m1.Keys + m2.Keys
    ensures forall k :: CoefOf(r, k) == CoefOf(m1, k) + CoefOf(m2, k)
  {
    map k | k in m1.Keys + m2.Keys :: CoefOf(m1, k) + CoefOf(m2, k)
  }

  lemma MapAddCommutes<K(!new)>(m1: map<K, real>, m2: map<K, real>)
    ensures MapAdd(m1, m2) == MapAdd(m2, m1)
  {
    MapsEqual(MapAdd(m1, m2), MapAdd(m2, m1));
  }

  /** Every entry multiplied by `s`; the keys stay. */
  function MapScale<K(!new)>(m: map<K, real>, s: real): (r: map<K, real>)
    ensures r.Keys == m.Keys
    ensures forall k :: k in m ==> r[k] == s * m[k]
  {
    map k | k in m :: s * m[k]
  }

  lemma MapScaleCoef<K(!new)>(m: map<K, real>, s: real, k: K)
    ensures CoefOf(MapScale(m, s), k) == s * CoefOf(m, k)
  {
    if k !in m {
      assert CoefOf(MapScale(m, s), k) == 0.0;
    }
  }

  /** Two maps with the same keys and the same coefficient everywhere are equal. */
  lemma MapsEqual<K>(m1: map<K, real>, m2: map<K, real>)
    requires m1.Keys == m2.Keys
    requires forall k :: CoefOf(m1, k) == CoefOf(m2, k)
    ensures m1 == m2
  {
    forall k | k in m1 ensures m1[k] == m2[k] {
      assert CoefOf(m1, k) == CoefOf(m2, k);
    }
  }

  /** A canonical term list: distinct keys and no coefficient below the threshold. */
  predicate IsCanonical<K(==)>(cs: seq<real>, ks: seq<K>, t: real) {
    && |cs| == |ks|
    && Distinct(ks)
    && (forall i :: 0 <= i < |cs| ==> Abs(cs[i]) >= t)
  }

  /** A canonical term list is its own canonical form: no entry merges and no entry is dropped. */
  lemma CanonicalIsFixpoint<K>(cs: seq<real>, ks: seq<K>, t: real)
    requires IsCanonical(cs, ks, t)
    ensures forall k :: Trim(KeySum(cs, ks, k), t) == KeySum(cs, ks, k)
  {
    forall k ensures Trim(KeySum(cs, ks, k), t) == KeySum(cs, ks, k) {
      if i :| 0 <= i < |ks| && ks[i] == k {
        KeySumAt(cs, ks, i);
      } else {
        KeySumAbsent(cs, ks, k);
      }
    }
  }

  /** The entries of a map as parallel coefficient and key sequences, in an unspecified order. */
  method Materialize<K(==,!new)>(m: map<K, real>) returns (cs: seq<real>, ks: seq<K>)
    ensures |cs| == |ks| && Distinct(ks) && Elements(ks) == m.Keys
    ensures forall i :: 0 <= i < |ks| ==> ks[i] in m && cs[i] == m[ks[i]]
    ensures forall k :: KeySum(cs, ks, k) == CoefOf(m, k)
  {
    cs, ks := [], [];
    var rest := m.Keys;
    while rest != {}
      invariant |cs| == |ks| && Distinct(ks)
      invariant rest <= m.Keys
      invariant forall i :: 0 <= i < |ks| ==> ks[i] in m && ks[i] !in rest && cs[i] == m[ks[i]]
      invariant forall k :: k in m ==> k in rest || k in ks
      decreases |rest|
    {
      var k :| k in rest;
      cs, ks := cs + [m[k]], ks + [k];
      rest := rest - {k};
    }
    forall k ensures KeySum(cs, ks, k) == CoefOf(m, k) {
      if i :| 0 <= i < |ks| && ks[i] == k {
        KeySumAt(cs, ks, i);
      } else {
        KeySumAbsent(cs, ks, k);
      }
    }
  }

  /** Sum a term list into `m0`, one `AddTerm` per entry. */
  method AccumulateInto<K(!new)>(m0: map<K, real>, cs: seq<real>, ks: seq<K>) returns (m: map<K, real>)
    requires |cs| == |ks|
    ensures m.Keys == m0.Keys + Elements(ks)
    ensures forall k :: CoefOf(m, k) == CoefOf(m0, k) + KeySum(cs, ks, k)
  {
    m := m0;
    for i := 0 to |cs|
      invariant m.Keys == m0.Keys + Elements(ks[..i])
      invariant forall k :: CoefOf(m, k) == CoefOf(m0, k) + KeySum(cs[..i], ks[..i], k)
    {
      assert cs[..i + 1][..i] == cs[..i] && ks[..i + 1][..i] == ks[..i];
      assert Elements(ks[..i + 1]) == Elements(ks[..i]) + {ks[i]} by {
        assert ks[..i + 1] == ks[..i] + [ks[i]];
      }
      m := AddTerm(m, ks[i], cs[i]);
    }
    assert cs[..|cs|] == cs && ks[..|ks|] == ks;
  }

  /** Accumulating a term list into a map adds the list's merged entries to it. */
  lemma AccumulatedIsMapAdd<K(!new)>(m0: map<K, real>, cs: seq<real>, ks: seq<K>, m: map<K, real>)
    requires |cs| == |ks|
    requires m.Keys == m0.Keys + Elements(ks)
    requires forall k :: CoefOf(m, k) == CoefOf(m0, k) + KeySum(cs, ks, k)
    ensures m == MapAdd(m0, Merged(cs, ks))
  {
    MapsEqual(m, MapAdd(m0, Merged(cs, ks)));
  }

  /**
   * `ScalarAffineFunction::canonicalize(threshold)`: entries naming the same
   * variable are merged by summing, merged coefficients whose magnitude is
   * below the threshold are dropped, and the constant is left alone.
   */
  method CanonicalizeAffine(f: ScalarAffineFunction, threshold: real) returns (g: ScalarAffineFunction)
    requires f.Valid()
    ensures g.Valid() && IsCanonical(g.coefficients, g.variables, threshold)
    ensures g.constant == f.constant
    ensures forall v :: v in Elements(g.variables) <==> v in Elements(f.variables) && Abs(AffineCoef(f, v)) >= threshold
    ensures forall v :: AffineCoef(g, v) == Trim(AffineCoef(f, v), threshold)
  {
    var m := AccumulateInto(map[], f.coefficients, f.variables);
    m := Kept(m, threshold);
    var cs, vs := Materialize(m);
    g := ScalarAffineFunction(cs, vs, f.constant);
  }

  /**
   * Canonicalizing twice gives what canonicalizing once gives: the same
   * variables with the same coefficients and the same constant, in canonical
   * form.
   */
  method CanonicalizeAffineTwice(f: ScalarAffineFunction, threshold: real) returns (g1: ScalarAffineFunction, g2: ScalarAffineFunction)
    requires f.Valid()
    ensures g1.Valid() && g2.Valid()
    ensures IsCanonical(g2.coefficients, g2.variables, threshold)
    ensures Elements(g2.variables) == Elements(g1.variables)
    ensures forall v :: AffineCoef(g2, v) == AffineCoef(g1, v) == Trim(AffineCoef(f, v), threshold)
    ensures g2.constant == g1.constant == f.constant
  {
    g1 := CanonicalizeAffine(f, threshold);
    g2 := CanonicalizeAffine(g1, threshold);
    CanonicalIsFixpoint(g1.coefficients, g1.variables, threshold);
  }

  /** The first and second variables of ordered pair keys. */
  function Firsts(ps: seq<VariablePair>): (r: seq<Index>)
    ensures |r| == |ps| && forall i :: 0 <= i < |ps| ==> r[i] == ps[i].var1
  {
    seq(|ps|, i requires 0 <= i < |ps| => ps[i].var1)
  }

  function Seconds(ps: seq<VariablePair>): (r: seq<Index>)
    ensures |r| == |ps| && forall i :: 0 <= i < |ps| ==> r[i] == ps[i].var2
  {
    seq(|ps|, i requires 0 <= i < |ps| => ps[i].var2)
  }

  /** Splitting ordered keys into their two variables and pairing them again gives the same keys. */
  lemma PairKeysOfOrdered(ps: seq<VariablePair>)
    requires forall i :: 0 <= i < |ps| ==> ps[i].Ordered()
    ensures PairKeys(Firsts(ps), Seconds(ps)) == ps
  {
    var r := PairKeys(Firsts(ps), Seconds(ps));
    forall i | 0 <= i < |ps| ensures r[i] == ps[i] {
      MakePairSymmetric(ps[i].var1, ps[i].var2, ps[i]);
    }
  }

  /**
   * `ScalarQuadraticFunction::canonicalize(threshold)`: quadratic entries are
   * keyed by their ordered variable pair (so `x_i * x_j` and `x_j * x_i`
   * merge), merged and thresholded like the linear entries, and the affine
   * part, when present, is canonicalized in the same way.
   */
  method CanonicalizeQuadratic(q: ScalarQuadraticFunction, threshold: real) returns (g: ScalarQuadraticFunction)
    requires q.Valid()
    ensures g.Valid() && IsCanonical(g.coefficients, PairKeys(g.variable1s, g.variable2s), threshold)
    ensures forall i :: 0 <= i < g.Size() ==> g.variable1s[i] <= g.variable2s[i]
    ensures forall p :: p in Elements(PairKeys(g.variable1s, g.variable2s)) <==>
      p in Elements(PairKeys(q.variable1s, q.variable2s)) && Abs(QuadraticCoef(q, p)) >= threshold
    ensures forall p :: QuadraticCoef(g, p) == Trim(QuadraticCoef(q, p), threshold)
    ensures g.affinePart.None? <==> q.affinePart.None?
    ensures g.affinePart.Some? ==> IsCanonical(g.affinePart.value.coefficients, g.affinePart.value.variables, threshold)
    ensures g.affinePart.Some? ==> g.affinePart.value.constant == q.affinePart.value.constant
    ensures g.affinePart.Some? ==> forall v :: v in Elements(g.affinePart.value.variables) <==>
      v in Elements(q.affinePart.value.variables) && Abs(QuadraticLinearCoef(q, v)) >= threshold
    ensures forall v :: QuadraticLinearCoef(g, v) == Trim(QuadraticLinearCoef(q, v), threshold)
    ensures QuadraticConstant(g) == QuadraticConstant(q)
  {
    var cs, v1s, v2s := CanonicalizePairTerms(q, threshold);
    var affine := None;
    if q.affinePart.Some? {
      var a := CanonicalizeAffine(q.affinePart.value, threshold);
      affine := Some(a);
    }
    g := ScalarQuadraticFunction(cs, v1s, v2s, affine);
  }

  /** The quadratic terms of `q` merged by ordered pair key and thresholded, as three parallel sequences. */
  method CanonicalizePairTerms(q: ScalarQuadraticFunction, threshold: real) returns (cs: seq<real>, v1s: seq<Index>, v2s: seq<Index>)
    requires q.Valid()
    ensures |cs| == |v1s| == |v2s|
    ensures IsCanonical(cs, PairKeys(v1s, v2s), threshold)
    ensures forall i :: 0 <= i < |cs| ==> v1s[i] <= v2s[i]
    ensures forall p :: p in Elements(PairKeys(v1s, v2s)) <==>
      p in Elements(PairKeys(q.variable1s, q.variable2s)) && Abs(QuadraticCoef(q, p)) >= threshold
    ensures forall p :: KeySum(cs, PairKeys(v1s, v2s), p) == Trim(QuadraticCoef(q, p), threshold)
  {
    var keys := PairKeys(q.variable1s, q.variable2s);
    var m := AccumulateInto(map[], q.coefficients, keys);
    m := Kept(m, threshold);
    var ps;
    cs, ps := Materialize(m);
    assert forall i :: 0 <= i < |ps| ==> ps[i].Ordered() by {
      forall i | 0 <= i < |ps| ensures ps[i].Ordered() {
        assert ps[i] in Elements(keys);
      }
    }
    PairKeysOfOrdered(ps);
    v1s, v2s := Firsts(ps), Seconds(ps);
  }

  /**
   * Canonicalizing a quadratic form twice gives what canonicalizing once
   * gives: the same pair keys, variables and coefficients, the same affine
   * part presence and constant, in canonical form.
   */
  method CanonicalizeQuadraticTwice(q: ScalarQuadraticFunction, threshold: real) returns (g1: ScalarQuadraticFunction, g2: ScalarQuadraticFunction)
    requires q.Valid()
    ensures g1.Valid() && g2.Valid()
    ensures IsCanonical(g2.coefficients, PairKeys(g2.variable1s, g2.variable2s), threshold)
    ensures Elements(PairKeys(g2.variable1s, g2.variable2s)) == Elements(PairKeys(g1.variable1s, g1.variable2s))
    ensures forall p :: QuadraticCoef(g2, p) == QuadraticCoef(g1, p) == Trim(QuadraticCoef(q, p), threshold)
    ensures g2.affinePart.None? <==> g1.affinePart.None?
    ensures g2.affinePart.Some? ==>
      && IsCanonical(g2.affinePart.value.coefficients, g2.affinePart.value.variables, threshold)
      && Elements(g2.affinePart.value.variables) == Elements(g1.affinePart.value.variables)
      && g2.affinePart.value.constant == g1.affinePart.value.constant
    ensures forall v :: QuadraticLinearCoef(g2, v) == QuadraticLinearCoef(g1, v) == Trim(QuadraticLinearCoef(q, v), threshold)
    ensures QuadraticConstant(g2) == QuadraticConstant(g1) == QuadraticConstant(q)
  {
    g1 := CanonicalizeQuadratic(q, threshold);
    g2 := CanonicalizeQuadratic(g1, threshold);
    CanonicalIsFixpoint(g1.coefficients, PairKeys(g1.variable1s, g1.variable2s), threshold);
    if g1.affinePart.Some? {
      CanonicalIsFixpoint(g1.affinePart.value.coefficients, g1.affinePart.value.variables, threshold);
    }
  }

  /** At the default threshold, `1e-13` is dropped and `1e-11` kept. */
  lemma DefaultThresholdExample()
    ensures Kept(map[0 := 1.0e-13, 1 := 1.0e-11], COEFTHRESHOLD) == map[1 := 1.0e-11]
  {
  }

  /** `x0 * 2 + x0 * 3 - x1` canonicalizes to 5 on `x0` and -1 on `x1`. */
  method CanonicalizeExample() returns (g: ScalarAffineFunction)
    ensures g.Valid() && Elements(g.variables) == {0, 1}
    ensures AffineCoef(g, 0) == 5.0 && AffineCoef(g, 1) == -1.0
    ensures g.constant.None?
  {
    var f := ScalarAffineFunction([2.0, 3.0, -1.0], [0, 0, 1], None);
    assert AffineCoef(f, 0) == 5.0 && AffineCoef(f, 1) == -1.0 by {
      assert f.coefficients[..2] == [2.0, 3.0] && f.variables[..2] == [0, 0];
      assert [2.0, 3.0][..1] == [2.0] && [0, 0][..1] == [0];
      assert [2.0][..0] == [] && [0][..0] == [];
    }
    g := CanonicalizeAffine(f, COEFTHRESHOLD);
    assert Elements(f.variables) == {0, 1};
  }
}
