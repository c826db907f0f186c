/**
 Preference and confidence matrices of implicit-feedback matrix factorisation
 (Hu, Koren and Volinsky, "Collaborative filtering for implicit feedback
 datasets", 2008), and the assembly of the per-row normal equations of one
 alternating-least-squares half-step.

 Y is the fixed factor matrix (one row per item, f columns), C and P the
 confidence and preference matrices (one row per user). For user u the
 system solved is (YᵗCuY + reg·I) x = YᵗCu p(u).
 */
module MatFacImplicit {
  import opened Wrappers
  import opened Matrices

  /** The confidence scaling alpha (mat_fac_implicit.py:61). */
  const Alpha: real := 40.0

  /** C = 1 + alpha * R, entry by entry (cal_confidence). */
  function Confidence(R: Matrix): (C: Matrix)
    ensures |C| == |R|
    ensures forall u :: 0 <= u < |R| ==> |C[u]| == |R[u]|
    ensures forall u, i :: 0 <= u < |R| && 0 <= i < |R[u]| ==> C[u][i] == 1.0 + Alpha * R[u][i]
  {
    seq(|R|, u requires 0 <= u < |R| =>
      seq(|R[u]|, i requires 0 <= i < |R[u]| => 1.0 + Alpha * R[u][i]))
  }

  /** The preference of one entry: 1 for an observed interaction, 0 otherwise. */
  function Indicator(x: real): real
  {
    if x == 0.0 then 0.0 else 1.0
  }

  /** cal_preference: a fresh buffer of ones whose entries at zero ratings are zeroed. */
  method CalPreference(R: Matrix, m: nat, n: nat) returns (P: array2<real>)
    requires IsMatrix(R, m, n)
    ensures P.Length0 == m && P.Length1 == n
    ensures forall u, i :: 0 <= u < m && 0 <= i < n ==>
      (P[u, i] == 1.0 <==> R[u][i] != 0.0) && (P[u, i] == 0.0 <==> R[u][i] == 0.0)
    ensures forall u, i :: 0 <= u < m && 0 <= i < n ==> P[u, i] == Indicator(R[u][i])
  {
    P := new real[m, n]((u, i) => 1.0);
    forall u, i | 0 <= u < m && 0 <= i < n && R[u][i] == 0.0 {
      P[u, i] := 0.0;
    }
  }

  /** Where the preference is 0 the confidence is exactly 1, and a
      non-negative rating never gives a confidence below 1. */
  lemma ConfidenceOfUnobserved(R: Matrix, u: nat, i: nat)
    requires u < |R| && i < |R[u]|
    ensures Indicator(R[u][i]) == 0.0 ==> Confidence(R)[u][i] == 1.0
    ensures R[u][i] >= 0.0 ==> Confidence(R)[u][i] >= 1.0
  {
  }

  /** Σ_{k<n} Y[k][r]·Y[k][c]: entry (r, c) of YᵗY over the first n rows of Y. */
  function Gram(Y: Matrix, f: nat, r: nat, c: nat, n: nat): real
    requires IsMatrix(Y, |Y|, f) && r < f && c < f && n <= |Y|
    decreases n
  {
    if n == 0 then 0.0 else Gram(Y, f, r, c, n - 1) + Y[n - 1][r] * Y[n - 1][c]
  }

  /** Σ_{k<n} Y[k][r]·(Y[k][c]·w[k]): entry (r, c) of Yᵗ·diag(w)·Y over the first n rows. */
  function WeightedGram(Y: Matrix, f: nat, w: seq<real>, r: nat, c: nat, n: nat): real
    requires IsMatrix(Y, |Y|, f) && |w| == |Y| && r < f && c < f && n <= |Y|
    decreases n
  {
    if n == 0 then 0.0 else WeightedGram(Y, f, w, r, c, n - 1) + Y[n - 1][r] * (Y[n - 1][c] * w[n - 1])
  }

  /** Σ_{k<n} Y[k][r]·(cu[k]·pu[k]): entry r of Yᵗ(Cu∘Pu) over the first n rows. */
  function RightSum(Y: Matrix, f: nat, cu: seq<real>, pu: seq<real>, r: nat, n: nat): real
    requires IsMatrix(Y, |Y|, f) && |cu| == |Y| && |pu| == |Y| && r < f && n <= |Y|
    decreases n
  {
    if n == 0 then 0.0 else RightSum(Y, f, cu, pu, r, n - 1) + Y[n - 1][r] * (cu[n - 1] * pu[n - 1])
  }

  /** Σ_{k<n} a[k]·b[k]. */
  function Dot(a: seq<real>, b: seq<real>, n: nat): real
    requires n <= |a| && n <= |b|
    decreases n
  {
    if n == 0 then 0.0 else Dot(a, b, n - 1) + a[n - 1] * b[n - 1]
  }

  /** YᵗY, shared by every row of a half-step. */
  function GramMatrix(Y: Matrix, f: nat): (G: Matrix)
    requires IsMatrix(Y, |Y|, f)
    ensures IsMatrix(G, f, f)
    ensures forall r, c :: 0 <= r < f && 0 <= c < f ==> G[r][c] == Gram(Y, f, r, c, |Y|)
    ensures forall r, c :: 0 <= r < f && 0 <= c < f ==> G[r][c] == G[c][r]
  {
    var G := seq(f, r requires 0 <= r < f => seq(f, c requires 0 <= c < f => Gram(Y, f, r, c, |Y|)));
    assert forall r, c :: 0 <= r < f && 0 <= c < f ==> G[r][c] == G[c][r] by {
      forall r, c | 0 <= r < f && 0 <= c < f ensures G[r][c] == G[c][r] {
        GramSymmetric(Y, f, r, c, |Y|);
      }
    }
    G
  }

  /** YᵗY is symmetric. */
  lemma {:induction false} GramSymmetric(Y: Matrix, f: nat, r: nat, c: nat, n: nat)
    requires IsMatrix(Y, |Y|, f) && r < f && c < f && n <= |Y|
    ensures Gram(Y, f, r, c, n) == Gram(Y, f, c, r, n)
    decreases n
  {
    if n > 0 {
      GramSymmetric(Y, f, r, c, n - 1);
    }
  }

  /** The paper's left-hand matrix YᵗCuY + reg·I. */
  function SystemMatrix(Y: Matrix, f: nat, cu: seq<real>, reg: real): (A: Matrix)
    requires IsMatrix(Y, |Y|, f) && |cu| == |Y|
    ensures IsMatrix(A, f, f)
  {
    seq(f, r requires 0 <= r < f =>
      seq(f, c requires 0 <= c < f => WeightedGram(Y, f, cu, r, c, |Y|) + (if r == c then reg else 0.0)))
  }

  /** The right-hand vector YᵗCu p(u). */
  function RightVector(Y: Matrix, f: nat, cu: seq<real>, pu: seq<real>): (b: seq<real>)
    requires IsMatrix(Y, |Y|, f) && |cu| == |Y| && |pu| == |Y|
    ensures |b| == f
    ensures forall r :: 0 <= r < f ==> b[r] == RightSum(Y, f, cu, pu, r, |Y|)
  {
    seq(f, r requires 0 <= r < f => RightSum(Y, f, cu, pu, r, |Y|))
  }

  /** The matrix-vector product A·b of an f x f matrix and an f-vector. */
  function MatVec(A: Matrix, b: seq<real>, f: nat): (x: seq<real>)
    requires IsMatrix(A, f, f) && |b| == f
    ensures |x| == f
    ensures forall r :: 0 <= r < f ==> x[r] == Dot(A[r], b, f)
  {
    seq(f, r requires 0 <= r < f => Dot(A[r], b, f))
  }

  /** Yᵗ·diag(w)·Y is symmetric. */
  lemma {:induction false} WeightedGramSymmetric(Y: Matrix, f: nat, w: seq<real>, r: nat, c: nat, n: nat)
    requires IsMatrix(Y, |Y|, f) && |w| == |Y| && r < f && c < f && n <= |Y|
    ensures WeightedGram(Y, f, w, r, c, n) == WeightedGram(Y, f, w, c, r, n)
    decreases n
  {
    if n > 0 {
      WeightedGramSymmetric(Y, f, w, r, c, n - 1);
      var k := n - 1;
      assert Y[k][r] * (Y[k][c] * w[k]) == Y[k][c] * (Y[k][r] * w[k]);
    }
  }

  /** YᵗY + Yᵗ(Cu − I)Y = YᵗCuY: splitting the confidence into 1 and Cu − 1
      changes nothing. */
  lemma {:induction false} ConfidenceSplit(Y: Matrix, f: nat, cu: seq<real>, cuI: seq<real>, r: nat, c: nat, n: nat)
    requires IsMatrix(Y, |Y|, f) && |cu| == |Y| && |cuI| == |Y| && r < f && c < f && n <= |Y|
    requires forall k :: 0 <= k < |Y| ==> cuI[k] == cu[k] - 1.0
    ensures Gram(Y, f, r, c, n) + WeightedGram(Y, f, cuI, r, c, n) == WeightedGram(Y, f, cu, r, c, n)
    decreases n
  {
    if n > 0 {
      ConfidenceSplit(Y, f, cu, cuI, r, c, n - 1);
      var k := n - 1;
      var a, b := Y[k][r], Y[k][c];
      assert a * b + a * (b * (cu[k] - 1.0)) == a * (b * cu[k]);
    }
  }

  /** Items whose preference is 0 contribute nothing to the right-hand side:
      factor rows of such items can be anything. */
  lemma {:induction false} RightSumIgnoresUnobserved(Y: Matrix, Z: Matrix, f: nat, cu: seq<real>, pu: seq<real>, r: nat, n: nat)
    requires IsMatrix(Y, |Y|, f) && IsMatrix(Z, |Y|, f) && |cu| == |Y| && |pu| == |Y| && r < f && n <= |Y|
    requires forall k :: 0 <= k < |Y| && pu[k] != 0.0 ==> Y[k] == Z[k]
    ensures RightSum(Y, f, cu, pu, r, n) == RightSum(Z, f, cu, pu, r, n)
    decreases n
  {
    if n > 0 {
      RightSumIgnoresUnobserved(Y, Z, f, cu, pu, r, n - 1);
      var k := n - 1;
      if pu[k] == 0.0 {
        assert Y[k][r] * (cu[k] * pu[k]) == 0.0 == Z[k][r] * (cu[k] * pu[k]);
      }
    }
  }

  /** The left-hand matrix YᵗCuY + reg·I is symmetric. */
  lemma SystemMatrixSymmetric(Y: Matrix, f: nat, cu: seq<real>, reg: real, r: nat, c: nat)
    requires IsMatrix(Y, |Y|, f) && |cu| == |Y| && r < f && c < f
    ensures SystemMatrix(Y, f, cu, reg)[r][c] == SystemMatrix(Y, f, cu, reg)[c][r]
  {
    WeightedGramSymmetric(Y, f, cu, r, c, |Y|);
  }

  /** The nested loop that fills Yᵗ·diag(w)·Y cell by cell (w = Cu − 1 in the source). */
  method WeightedGramBuffer(Y: Matrix, f: nat, w: seq<real>) returns (G: array2<real>)
    requires IsMatrix(Y, |Y|, f) && |w| == |Y|
    ensures G.Length0 == f && G.Length1 == f
    ensures forall r, c :: 0 <= r < f && 0 <= c < f ==> G[r, c] == WeightedGram(Y, f, w, r, c, |Y|)
    ensures forall r, c :: 0 <= r < f && 0 <= c < f ==> G[r, c] == G[c, r]
  {
    G := new real[f, f]((r, c) => 0.0);
    for row := 0 to f
      invariant forall r, c :: 0 <= r < row && 0 <= c < f ==> G[r, c] == WeightedGram(Y, f, w, r, c, |Y|)
    {
      for col := 0 to f
        invariant forall r, c :: 0 <= r < row && 0 <= c < f ==> G[r, c] == WeightedGram(Y, f, w, r, c, |Y|)
        invariant forall c :: 0 <= c < col ==> G[row, c] == WeightedGram(Y, f, w, row, c, |Y|)
      {
        G[row, col] := WeightedGram(Y, f, w, row, col, |Y|);
      }
    }
    forall r, c | 0 <= r < f && 0 <= c < f
      ensures WeightedGram(Y, f, w, r, c, |Y|) == WeightedGram(Y, f, w, c, r, |Y|)
    {
      WeightedGramSymmetric(Y, f, w, r, c, |Y|);
    }
  }

  /** np.linalg.inv raising LinAlgError while solving the system of a row. */
  datatype LinAlgError = SingularMatrix(row: nat)

  /** Row u's matrix YᵗCuY + reg·I has an inverse: `inv` does not report it singular. */
  predicate Invertible(Y: Matrix, f: nat, cu: seq<real>, reg: real, inv: Matrix -> Option<Matrix>)
    requires IsMatrix(Y, |Y|, f) && |cu| == |Y|
  {
    inv(SystemMatrix(Y, f, cu, reg)).Some?
  }

  /** The left-hand matrix of row u's system as the code assembles it,
      YᵗY + Yᵗ(Cu − I)Y + reg·I, is the paper's YᵗCuY + reg·I. */
  method LeftMatrix(Y: Matrix, fNum: nat, YtY: Matrix, Cu: seq<real>, reg: real) returns (A: Matrix)
    requires IsMatrix(Y, |Y|, fNum) && |Cu| == |Y|
    requires YtY == GramMatrix(Y, fNum)
    ensures A == SystemMatrix(Y, fNum, Cu, reg)
  {
    var iNum := |Y|;
    var CuI := seq(iNum, k requires 0 <= k < iNum => Cu[k] - 1.0);
    var YtCuIY := WeightedGramBuffer(Y, fNum, CuI);
    A := seq(fNum, r requires 0 <= r < fNum reads YtCuIY =>
      seq(fNum, c requires 0 <= c < fNum reads YtCuIY =>
        YtY[r][c] + YtCuIY[r, c] + (if r == c then reg else 0.0)));
    forall r, c | 0 <= r < fNum && 0 <= c < fNum
      ensures A[r][c] == SystemMatrix(Y, fNum, Cu, reg)[r][c]
    {
      ConfidenceSplit(Y, fNum, Cu, CuI, r, c, iNum);
    }
    forall r | 0 <= r < fNum
      ensures A[r] == SystemMatrix(Y, fNum, Cu, reg)[r]
    {
    }
  }

  /** One half-step: for every row u, assemble the left matrix as
      YᵗY + Yᵗ(Cu − I)Y + reg·I and the right vector YᵗCu p(u), and store
      the solution in row u of the fresh output buffer X. The matrix
      inversion is the parameter `inv` (None for a singular matrix). */
  method AlternateLS(uNum: nat, Y: Matrix, fNum: nat, P: Matrix, C: Matrix, reg: real,
                     inv: Matrix -> Option<Matrix>)
    returns (res: Result<array2<real>, LinAlgError>)
    requires IsMatrix(Y, |Y|, fNum)
    requires IsMatrix(P, uNum, |Y|) && IsMatrix(C, uNum, |Y|)
    requires forall A :: IsMatrix(A, fNum, fNum) && inv(A).Some? ==> IsMatrix(inv(A).value, fNum, fNum)
    ensures res.Failure? <==> exists u :: 0 <= u < uNum && !Invertible(Y, fNum, C[u], reg, inv)
    ensures res.Failure? ==>
      && res.error.row < uNum
      && !Invertible(Y, fNum, C[res.error.row], reg, inv)
      && forall v :: 0 <= v < res.error.row ==> Invertible(Y, fNum, C[v], reg, inv)
    ensures res.Success? ==> res.value.Length0 == uNum && res.value.Length1 == fNum
    ensures res.Success? ==> forall u :: 0 <= u < uNum ==>
      Invertible(Y, fNum, C[u], reg, inv) &&
      var x := MatVec(inv(SystemMatrix(Y, fNum, C[u], reg)).value, RightVector(Y, fNum, C[u], P[u]), fNum);
      forall c :: 0 <= c < fNum ==> res.value[u, c] == x[c]
  {
    var X := new real[uNum, fNum]((u, c) => 0.0);
    var YtY := GramMatrix(Y, fNum);
    for u := 0 to uNum
      invariant forall v :: 0 <= v < u ==> Invertible(Y, fNum, C[v], reg, inv)
      invariant forall v :: 0 <= v < u ==>
        var x := MatVec(inv(SystemMatrix(Y, fNum, C[v], reg)).value, RightVector(Y, fNum, C[v], P[v]), fNum);
        forall c :: 0 <= c < fNum ==> X[v, c] == x[c]
      invariant forall v, c :: u <= v < uNum && 0 <= c < fNum ==> X[v, c] == 0.0
    {
      var Cu, Pu := C[u], P[u];
      var leftInv := LeftMatrix(Y, fNum, YtY, Cu, reg);
      var left := inv(leftInv);
      if left.None? {
        return Failure(SingularMatrix(u));
      }
      var right := RightVector(Y, fNum, Cu, Pu);
      var x := MatVec(left.value, right, fNum);
      forall c | 0 <= c < fNum {
        X[u, c] := x[c];
      }
    }
    return Success(X);
  }
}
