/**
 The relation predicates of hw4.py. A is a finite list of integers and R a
 list of ordered pairs; each check scans the lists and stops at the first
 witness against the property. Each check is proved equal to the property's
 quantifier definition, and the implications between the properties are
 proved as lemmas.
 */
module RelationProps {
  type Relation = seq<(int, int)>

  /** Every element of A is related to itself. */
  predicate Reflexive(A: seq<int>, R: Relation) {
    forall a :: a in A ==> (a, a) in R
  }

  /** No element of A is related to itself. */
  predicate Irreflexive(A: seq<int>, R: Relation) {
    forall a :: a in A ==> (a, a) !in R
  }

  /** Whenever a R b and b R d, also a R d. */
  predicate Transitive(R: Relation) {
    forall p, q :: p in R && q in R && p.1 == q.0 ==> (p.0, q.1) in R
  }

  /** No two different elements are related in both directions. */
  predicate Antisymmetric(R: Relation) {
    forall p :: p in R && p.0 != p.1 ==> (p.1, p.0) !in R
  }

  /** Every pair is related in the other direction too. */
  predicate Symmetric(R: Relation) {
    forall p :: p in R ==> (p.1, p.0) in R
  }

  /** No pair is related in the other direction. */
  predicate Asymmetric(R: Relation) {
    forall p :: p in R ==> (p.1, p.0) !in R
  }

  /** R relates elements of A only. */
  predicate OnSet(A: seq<int>, R: Relation) {
    forall p :: p in R ==> p.0 in A && p.1 in A
  }

  /** isReflexive: looks for an element of A without its loop pair. */
  method IsReflexive(A: seq<int>, R: Relation) returns (b: bool)
    ensures b <==> Reflexive(A, R)
  {
    for i := 0 to |A|
      invariant forall k :: 0 <= k < i ==> (A[k], A[k]) in R
    {
      if (A[i], A[i]) !in R {
        var a := A[i];
        assert a in A && (a, a) !in R;
        assert !Reflexive(A, R);
        return false;
      }
    }
    return true;
  }

  /** isIrreflexive: looks for an element of A with its loop pair. */
  method IsIrreflexive(A: seq<int>, R: Relation) returns (b: bool)
    ensures b <==> Irreflexive(A, R)
  {
    for i := 0 to |A|
      invariant forall k :: 0 <= k < i ==> (A[k], A[k]) !in R
    {
      if (A[i], A[i]) in R {
        var a := A[i];
        assert a in A && (a, a) in R;
        assert !Irreflexive(A, R);
        return false;
      }
    }
    return true;
  }

  /** isTransitive: looks for pairs (a, b), (b, d) of R without (a, d). */
  method IsTransitive(A: seq<int>, R: Relation) returns (b: bool)
    ensures b <==> Transitive(R)
  {
    for i := 0 to |R|
      invariant forall x, y :: 0 <= x < i && 0 <= y < |R| && R[x].1 == R[y].0 ==> (R[x].0, R[y].1) in R
    {
      for j := 0 to |R|
        invariant forall y :: 0 <= y < j && R[i].1 == R[y].0 ==> (R[i].0, R[y].1) in R
      {
        if R[i].1 == R[j].0 {
          if (R[i].0, R[j].1) !in R {
            return false;
          }
        }
      }
    }
    return true;
  }

  /** isAntisymmetric: looks for a pair of different elements whose reverse is in R. */
  method IsAntisymmetric(A: seq<int>, R: Relation) returns (b: bool)
    ensures b <==> Antisymmetric(R)
  {
    for i := 0 to |R|
      invariant forall x :: 0 <= x < i && R[x].0 != R[x].1 ==> (R[x].1, R[x].0) !in R
    {
      if R[i].0 == R[i].1 {
        continue;
      }
      if (R[i].1, R[i].0) in R {
        return false;
      }
    }
    return true;
  }

  /** isSymmetric: looks for a pair whose reverse is missing. */
  method IsSymmetric(A: seq<int>, R: Relation) returns (b: bool)
    ensures b <==> Symmetric(R)
  {
    for i := 0 to |R|
      invariant forall x :: 0 <= x < i ==> (R[x].1, R[x].0) in R
    {
      if (R[i].1, R[i].0) !in R {
        return false;
      }
    }
    return true;
  }

  /** isAsymmetric: looks for a pair whose reverse is present. */
  method IsAsymmetric(A: seq<int>, R: Relation) returns (b: bool)
    ensures b <==> Asymmetric(R)
  {
    for i := 0 to |R|
      invariant forall x :: 0 <= x < i ==> (R[x].1, R[x].0) !in R
    {
      if (R[i].1, R[i].0) in R {
        return false;
      }
    }
    return true;
  }

  /** An asymmetric relation is antisymmetric. */
  lemma AsymmetricIsAntisymmetric(R: Relation)
    requires Asymmetric(R)
    ensures Antisymmetric(R)
  {
  }

  /** An asymmetric relation relates nothing to itself, so it is irreflexive on any A. */
  lemma AsymmetricIsIrreflexive(A: seq<int>, R: Relation)
    requires Asymmetric(R)
    ensures Irreflexive(A, R)
  {
    forall a | a in A
      ensures (a, a) !in R
    {
      assert (a, a) in R ==> (a, a) !in R;
    }
  }

  /**
   For a relation on A, asymmetry is exactly antisymmetry together with
   irreflexivity.
   */
  lemma AsymmetricIffAntisymmetricIrreflexive(A: seq<int>, R: Relation)
    requires OnSet(A, R)
    ensures Asymmetric(R) <==> Antisymmetric(R) && Irreflexive(A, R)
  {
    if Asymmetric(R) {
      AsymmetricIsAntisymmetric(R);
      AsymmetricIsIrreflexive(A, R);
    }
    if Antisymmetric(R) && Irreflexive(A, R) {
      forall p | p in R
        ensures (p.1, p.0) !in R
      {
        assert p.0 in A;
        if p.0 == p.1 {
          assert p == (p.0, p.0);
        }
      }
    }
  }

  /** Symmetric and antisymmetric together leave only loop pairs. */
  lemma SymmetricAntisymmetricLoopsOnly(R: Relation)
    requires Symmetric(R) && Antisymmetric(R)
    ensures forall p :: p in R ==> p.0 == p.1
  {
  }

  /**
   The empty relation: every property holds except reflexivity, which fails
   as soon as A has an element.
   */
  lemma EmptyRelation(A: seq<int>)
    ensures Reflexive(A, []) <==> A == []
    ensures Irreflexive(A, []) && Transitive([]) && Antisymmetric([]) && Symmetric([]) && Asymmetric([])
  {
    var empty: Relation := [];
    if A != [] {
      var a := A[0];
      assert a in A && (a, a) !in empty;
      assert !Reflexive(A, empty);
    }
  }

  /** The six checks on A = [0, 1, 2] and the empty relation. */
  method EmptyRelationChecks() returns (refl: bool, antisym: bool, asym: bool, irrefl: bool, sym: bool, trans: bool)
    ensures !refl && antisym && asym && irrefl && sym && trans
  {
    var A := [0, 1, 2];
    var R: Relation := [];
    EmptyRelation(A);
    refl := IsReflexive(A, R);
    antisym := IsAntisymmetric(A, R);
    asym := IsAsymmetric(A, R);
    irrefl := IsIrreflexive(A, R);
    sym := IsSymmetric(A, R);
    trans := IsTransitive(A, R);
  }
}
