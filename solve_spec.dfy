/** The triangular solves with a stored factor, on values.

    A factor row i holds, left of its diagonal, the multipliers of the unit
    lower factor L; at the diagonal, the reciprocal of the pivot; right of
    it, the upper factor U. Row i of the factor stands for row r[i] of A and
    its column k for column c[k] of A, so A x = b becomes L U z = b∘r with
    x[c[k]] = z[k], and A^T x = b becomes U^T L^T z = b∘c with x[r[i]] = z[i].

    The sweeps are written the way the solves run them (running sums, one
    subtraction per stored entry); the predicates LowerSolved, UpperSolved,
    TransUpperSolved and TransLowerSolved state the triangular equations
    they solve, and the lemmas show each sweep gives the one solution. */
module SolveSpec {
  import opened Sparse
  import opened Numeric

  /** The values of b at the positions p lists: g[k] = b[p[k]]. */
  ghost function Gather(b: seq<real>, p: seq<int>): (g: seq<real>)
    requires forall k :: 0 <= k < |p| ==> 0 <= p[k] < |b|
    ensures |g| == |p|
  {
    seq(|p|, k => if 0 <= k < |p| then b[p[k]] else 0.0)
  }

  /** x times the stored reciprocal of a pivot d: x divided by the pivot. */
  function Scale(x: real, d: real): real
  {
    x * d
  }

  /** A factor pattern with one value per stored entry. */
  ghost predicate Stored(P: Pattern, V: seq<real>)
  {
    FactorPattern(P) && |V| == |P.aj|
  }

  // ---------------------------------------------------------------------
  // Forward solve with L (rows in increasing order).

  /** s minus the first t products of row i's lower entries with y. */
  ghost function ForwardSum(P: Pattern, V: seq<real>, y: seq<real>, s: real, i: int, t: int): real
    requires Stored(P, V) && 0 <= i < P.n && i <= |y|
    requires 0 <= t <= LowerCount(P, i)
    decreases t
  {
    if t == 0 then s
    else
      var p := P.ai[i] - 1 + t - 1;
      SplitAtDiagonal(P, i);
      Less(ForwardSum(P, V, y, s, i, t - 1), V[p], y[P.aj[p] - 1])
  }

  /** The first k entries of the forward solve of L y = c. */
  ghost function Forward(P: Pattern, V: seq<real>, c: seq<real>, k: int): (y: seq<real>)
    requires Stored(P, V) && |c| == P.n && 0 <= k <= P.n
    ensures |y| == k
  {
    if k == 0 then []
    else
      var y := Forward(P, V, c, k - 1);
      y + [ForwardSum(P, V, y, c[k - 1], k - 1, LowerCount(P, k - 1))]
  }

  /** y solves L y = c: each y[i] is c[i] less row i of L (left of the
      diagonal) times y. */
  ghost predicate LowerSolved(P: Pattern, V: seq<real>, y: seq<real>, c: seq<real>)
    requires Stored(P, V) && |c| == P.n
  {
    |y| == P.n && forall i :: 0 <= i < P.n ==> LowerRowSolved(P, V, y, c, i)
  }

  /** Equation i of L y = c. */
  ghost predicate LowerRowSolved(P: Pattern, V: seq<real>, y: seq<real>, c: seq<real>, i: int)
    requires Stored(P, V) && |c| == P.n && |y| == P.n && 0 <= i < P.n
  {
    y[i] == ForwardSum(P, V, y, c[i], i, LowerCount(P, i))
  }

  /** The lower products read y only left of column i. */
  lemma {:induction false} ForwardSumFrame(P: Pattern, V: seq<real>, y: seq<real>, y': seq<real>, s: real, i: int, t: int)
    requires Stored(P, V) && 0 <= i < P.n && i <= |y| && i <= |y'| && y[..i] == y'[..i]
    requires 0 <= t <= LowerCount(P, i)
    ensures ForwardSum(P, V, y, s, i, t) == ForwardSum(P, V, y', s, i, t)
    decreases t
  {
    if t > 0 {
      ForwardSumFrame(P, V, y, y', s, i, t - 1);
      var p := P.ai[i] - 1 + t - 1;
      SplitAtDiagonal(P, i);
      assert y[P.aj[p] - 1] == y[..i][P.aj[p] - 1];
    }
  }

  lemma {:induction false} ForwardPrefix(P: Pattern, V: seq<real>, c: seq<real>, j: int, k: int)
    requires Stored(P, V) && |c| == P.n && 0 <= j <= k <= P.n
    ensures Forward(P, V, c, k)[..j] == Forward(P, V, c, j)
    decreases k
  {
    if j < k {
      ForwardPrefix(P, V, c, j, k - 1);
      assert Forward(P, V, c, k)[..k - 1] == Forward(P, V, c, k - 1);
    }
  }

  /** The forward sweep gives a solution of L y = c, and the only one. */
  lemma ForwardCharacterized(P: Pattern, V: seq<real>, c: seq<real>, y: seq<real>)
    requires Stored(P, V) && |c| == P.n
    ensures LowerSolved(P, V, y, c) <==> y == Forward(P, V, c, P.n)
  {
    var Y := Forward(P, V, c, P.n);
    forall i | 0 <= i < P.n
      ensures LowerRowSolved(P, V, Y, c, i)
    {
      ForwardPrefix(P, V, c, i + 1, P.n);
      ForwardPrefix(P, V, c, i, P.n);
      assert Y[i] == Forward(P, V, c, i + 1)[i];
      ForwardSumFrame(P, V, Y, Forward(P, V, c, i), c[i], i, LowerCount(P, i));
    }
    if LowerSolved(P, V, y, c) {
      ForwardUnique(P, V, c, y, P.n);
      assert y == y[..P.n];
    }
  }

  lemma {:induction false} ForwardUnique(P: Pattern, V: seq<real>, c: seq<real>, y: seq<real>, k: int)
    requires Stored(P, V) && |c| == P.n && LowerSolved(P, V, y, c) && 0 <= k <= P.n
    ensures y[..k] == Forward(P, V, c, k)
    decreases k
  {
    if k > 0 {
      ForwardUnique(P, V, c, y, k - 1);
      assert LowerRowSolved(P, V, y, c, k - 1);
      ForwardSumFrame(P, V, y, Forward(P, V, c, k - 1), c[k - 1], k - 1, LowerCount(P, k - 1));
      assert y[..k] == y[..k - 1] + [y[k - 1]];
    }
  }

  // ---------------------------------------------------------------------
  // Backward solve with U (rows in decreasing order, in place).

  /** s minus the first t products of row i's upper entries with z. */
  ghost function BackwardSum(P: Pattern, V: seq<real>, z: seq<real>, s: real, i: int, t: int): real
    requires Stored(P, V) && 0 <= i < P.n && |z| == P.n
    requires 0 <= t <= UpperCount(P, i)
    decreases t
  {
    if t == 0 then s
    else
      var q := P.diag[i] + t - 1;
      SplitAtDiagonal(P, i);
      Less(BackwardSum(P, V, z, s, i, t - 1), V[q], z[P.aj[q] - 1])
  }

  /** The backward sweep over rows n-1 down to k, in place on y: row i's
      entry becomes (y[i] less row i of U right of the diagonal times the
      finished entries) times the stored 1/pivot. */
  ghost function Backward(P: Pattern, V: seq<real>, y: seq<real>, k: int): (z: seq<real>)
    requires Stored(P, V) && |y| == P.n && 0 <= k <= P.n
    ensures |z| == P.n
    decreases P.n - k
  {
    if k == P.n then y
    else
      var z := Backward(P, V, y, k + 1);
      z[k := Scale(BackwardSum(P, V, z, z[k], k, UpperCount(P, k)), V[P.diag[k] - 1])]
  }

  /** z solves U z = y, where U's diagonal is the reciprocal of the stored
      value there. */
  ghost predicate UpperSolved(P: Pattern, V: seq<real>, z: seq<real>, y: seq<real>)
    requires Stored(P, V) && |y| == P.n
  {
    |z| == P.n && forall i :: 0 <= i < P.n ==> UpperRowSolved(P, V, z, y, i)
  }

  /** Equation i of U z = y. */
  ghost predicate UpperRowSolved(P: Pattern, V: seq<real>, z: seq<real>, y: seq<real>, i: int)
    requires Stored(P, V) && |y| == P.n && |z| == P.n && 0 <= i < P.n
  {
    z[i] == Scale(BackwardSum(P, V, z, y[i], i, UpperCount(P, i)), V[P.diag[i] - 1])
  }

  /** The upper products read z only right of column i. */
  lemma {:induction false} BackwardSumFrame(P: Pattern, V: seq<real>, z: seq<real>, z': seq<real>, s: real, i: int, t: int)
    requires Stored(P, V) && 0 <= i < P.n && |z| == P.n && |z'| == P.n
    requires forall c :: i < c < P.n ==> z[c] == z'[c]
    requires 0 <= t <= UpperCount(P, i)
    ensures BackwardSum(P, V, z, s, i, t) == BackwardSum(P, V, z', s, i, t)
    decreases t
  {
    if t > 0 {
      BackwardSumFrame(P, V, z, z', s, i, t - 1);
      SplitAtDiagonal(P, i);
    }
  }

  /** Rows below k are still y. */
  lemma {:induction false} BackwardBelow(P: Pattern, V: seq<real>, y: seq<real>, k: int, j: int)
    requires Stored(P, V) && |y| == P.n && 0 <= j < k <= P.n
    ensures Backward(P, V, y, k)[j] == y[j]
    decreases P.n - k
  {
    if k < P.n {
      BackwardBelow(P, V, y, k + 1, j);
    }
  }

  /** Row j's entry is final once row j is done. */
  lemma {:induction false} BackwardDone(P: Pattern, V: seq<real>, y: seq<real>, k: int, j: int)
    requires Stored(P, V) && |y| == P.n && 0 <= k <= j < P.n
    ensures Backward(P, V, y, k)[j] == Backward(P, V, y, j)[j]
    decreases j - k
  {
    if k < j {
      BackwardDone(P, V, y, k + 1, j);
    }
  }

  /** Entry j of the sweep, in terms of the entries right of it once the
      sweep has passed them. */
  lemma BackwardAt(P: Pattern, V: seq<real>, y: seq<real>, z: seq<real>, j: int)
    requires Stored(P, V) && |y| == P.n && |z| == P.n && 0 <= j < P.n
    requires forall c :: j < c < P.n ==> z[c] == Backward(P, V, y, j + 1)[c]
    ensures Backward(P, V, y, j)[j] == Scale(BackwardSum(P, V, z, y[j], j, UpperCount(P, j)), V[P.diag[j] - 1])
  {
    if j + 1 < P.n {
      BackwardBelow(P, V, y, j + 1, j);
    }
    BackwardSumFrame(P, V, Backward(P, V, y, j + 1), z, y[j], j, UpperCount(P, j));
  }

  /** z holds the sweep's final value at column c. */
  ghost predicate Settled(P: Pattern, V: seq<real>, y: seq<real>, z: seq<real>, c: int)
    requires Stored(P, V) && |y| == P.n && |z| == P.n && 0 <= c < P.n
  {
    z[c] == Backward(P, V, y, c)[c]
  }

  /** The backward sweep gives a solution of U z = y, and the only one. */
  lemma BackwardCharacterized(P: Pattern, V: seq<real>, y: seq<real>, z: seq<real>)
    requires Stored(P, V) && |y| == P.n
    ensures UpperSolved(P, V, z, y) <==> z == Backward(P, V, y, 0)
  {
    var Z := Backward(P, V, y, 0);
    forall i | 0 <= i < P.n
      ensures UpperRowSolved(P, V, Z, y, i)
    {
      forall c | i < c < P.n
        ensures Z[c] == Backward(P, V, y, i + 1)[c]
      {
        BackwardDone(P, V, y, 0, c);
        BackwardDone(P, V, y, i + 1, c);
      }
      BackwardAt(P, V, y, Z, i);
      BackwardDone(P, V, y, 0, i);
    }
    if UpperSolved(P, V, z, y) {
      forall j | 0 <= j < P.n
        ensures z[j] == Z[j]
      {
        BackwardUnique(P, V, y, z, j);
        BackwardDone(P, V, y, 0, j);
      }
    }
  }

  lemma {:induction false} BackwardUnique(P: Pattern, V: seq<real>, y: seq<real>, z: seq<real>, j: int)
    requires Stored(P, V) && |y| == P.n && UpperSolved(P, V, z, y) && 0 <= j < P.n
    ensures Settled(P, V, y, z, j)
    decreases P.n - j
  {
    forall c | j < c < P.n
      ensures z[c] == Backward(P, V, y, j + 1)[c]
    {
      BackwardUnique(P, V, y, z, c);
      BackwardDone(P, V, y, j + 1, c);
    }
    BackwardAt(P, V, y, z, j);
    assert UpperRowSolved(P, V, z, y, j);
  }

  /** A x = b through the factor: z = U^-1 L^-1 (b∘r), and x[c[k]] = z[k]. */
  ghost function SolveValues(P: Pattern, V: seq<real>, r: seq<int>, b: seq<real>): (z: seq<real>)
    requires Stored(P, V) && IndexMap(r, P.n) && |b| == P.n
    ensures |z| == P.n
  {
    Backward(P, V, Forward(P, V, Gather(b, r), P.n), 0)
  }

  // ---------------------------------------------------------------------
  // Forward solve with U^T (rows in increasing order, column-oriented).

  /** The part of SubUpper that lands in column k: the sum of m*V[q] over
      the first t upper entries q of row j that lie in column k. */
  ghost function UpperHits(P: Pattern, V: seq<real>, m: real, k: int, j: int, t: int): real
    requires Stored(P, V) && 0 <= j < P.n && 0 <= t <= UpperCount(P, j)
    decreases t
  {
    if t == 0 then 0.0
    else
      var q := P.diag[j] + t - 1;
      SplitAtDiagonal(P, j);
      UpperHits(P, V, m, k, j, t - 1) + (if P.aj[q] - 1 == k then m * V[q] else 0.0)
  }

  /** Subtracting a multiple of row j's upper part changes column k by
      exactly the hits on k; columns at or left of j are untouched. */
  lemma {:induction false} SubUpperAt(P: Pattern, V: seq<real>, w: seq<real>, m: real, j: int, t: int, k: int)
    requires Stored(P, V) && 0 <= j < P.n && |w| == P.n && 0 <= t <= UpperCount(P, j) && 0 <= k < P.n
    ensures SubUpper(P, V, w, m, j, t)[k] == w[k] - UpperHits(P, V, m, k, j, t)
    ensures k <= j ==> UpperHits(P, V, m, k, j, t) == 0.0
    decreases t
  {
    if t > 0 {
      SubUpperAt(P, V, w, m, j, t - 1, k);
      SplitAtDiagonal(P, j);
    }
  }

  /** The U^T products landing in column k from rows 0..i-1, with z. */
  ghost function ColumnUpper(P: Pattern, V: seq<real>, z: seq<real>, k: int, i: int): real
    requires Stored(P, V) && |z| == P.n && 0 <= i <= P.n
    decreases i
  {
    if i == 0 then 0.0
    else ColumnUpper(P, V, z, k, i - 1) + UpperHits(P, V, z[i - 1], k, i - 1, UpperCount(P, i - 1))
  }

  /** z solves U^T z = c: each z[k] is c[k] less column k of U above the
      diagonal times z, times the stored 1/pivot. */
  ghost predicate TransUpperSolved(P: Pattern, V: seq<real>, z: seq<real>, c: seq<real>)
    requires Stored(P, V) && |c| == P.n
  {
    |z| == P.n && forall k :: 0 <= k < P.n ==> UpperColumnSolved(P, V, z, c, k)
  }

  /** Equation k of U^T z = c. */
  ghost predicate UpperColumnSolved(P: Pattern, V: seq<real>, z: seq<real>, c: seq<real>, k: int)
    requires Stored(P, V) && |c| == P.n && |z| == P.n && 0 <= k < P.n
  {
    z[k] == Scale(c[k] - ColumnUpper(P, V, z, k, P.n), V[P.diag[k] - 1])
  }

  /** Step i of the U^T sweep: scale entry i by the stored 1/pivot, then
      subtract it times row i's upper part. */
  ghost function UpperTransStep(P: Pattern, V: seq<real>, w: seq<real>, i: int): (v: seq<real>)
    requires Stored(P, V) && 0 <= i < P.n && |w| == P.n
    ensures |v| == P.n
  {
    SplitAtDiagonal(P, i);
    var m := Scale(w[i], V[P.diag[i] - 1]);
    SubUpper(P, V, w[i := m], m, i, UpperCount(P, i))
  }

  /** The U^T sweep over rows 0..i-1, in place on c. */
  ghost function TransForward(P: Pattern, V: seq<real>, c: seq<real>, i: int): (z: seq<real>)
    requires Stored(P, V) && |c| == P.n && 0 <= i <= P.n
    ensures |z| == P.n
    decreases i
  {
    if i == 0 then c else UpperTransStep(P, V, TransForward(P, V, c, i - 1), i - 1)
  }

  /** Rows only hit columns right of them. */
  lemma {:induction false} ColumnUpperRest(P: Pattern, V: seq<real>, z: seq<real>, k: int, i: int)
    requires Stored(P, V) && |z| == P.n && 0 <= k <= i <= P.n
    ensures ColumnUpper(P, V, z, k, i) == ColumnUpper(P, V, z, k, k)
    decreases i
  {
    if i > k {
      ColumnUpperRest(P, V, z, k, i - 1);
      SubUpperAt(P, V, z, z[i - 1], i - 1, UpperCount(P, i - 1), k);
    }
  }

  /** Column k reads z only above row i. */
  lemma {:induction false} ColumnUpperFrame(P: Pattern, V: seq<real>, z: seq<real>, z': seq<real>, k: int, i: int)
    requires Stored(P, V) && |z| == P.n && |z'| == P.n && 0 <= i <= P.n
    requires forall j :: 0 <= j < i ==> z[j] == z'[j]
    ensures ColumnUpper(P, V, z, k, i) == ColumnUpper(P, V, z', k, i)
    decreases i
  {
    if i > 0 {
      ColumnUpperFrame(P, V, z, z', k, i - 1);
    }
  }

  /** What step i does to entry k: nothing left of i, the scaling at i,
      and the hits of row i (times the scaled entry) right of i. */
  lemma UpperTransStepAt(P: Pattern, V: seq<real>, w: seq<real>, i: int, k: int)
    requires Stored(P, V) && 0 <= i < P.n && |w| == P.n && 0 <= k < P.n
    ensures k < i ==> UpperTransStep(P, V, w, i)[k] == w[k]
    ensures k == i ==> UpperTransStep(P, V, w, i)[k] == Scale(w[i], V[P.diag[i] - 1])
    ensures i < k ==> UpperTransStep(P, V, w, i)[k] == w[k] - UpperHits(P, V, UpperTransStep(P, V, w, i)[i], k, i, UpperCount(P, i))
  {
    SplitAtDiagonal(P, i);
    var m := Scale(w[i], V[P.diag[i] - 1]);
    SubUpperAt(P, V, w[i := m], m, i, UpperCount(P, i), k);
    SubUpperAt(P, V, w[i := m], m, i, UpperCount(P, i), i);
  }

  /** Entry k is final after step k. */
  lemma {:induction false} TransForwardDone(P: Pattern, V: seq<real>, c: seq<real>, k: int, j: int)
    requires Stored(P, V) && |c| == P.n && 0 <= k < j <= P.n
    ensures TransForward(P, V, c, j)[k] == TransForward(P, V, c, k + 1)[k]
    decreases j
  {
    if k + 1 < j {
      TransForwardDone(P, V, c, k, j - 1);
      UpperTransStepAt(P, V, TransForward(P, V, c, j - 1), j - 1, k);
    }
  }

  /** After rows 0..i-1, every entry at or right of i is c less what those
      rows, with their final values, landed in its column. */
  lemma {:induction false} TransForwardPending(P: Pattern, V: seq<real>, c: seq<real>, i: int, k: int)
    requires Stored(P, V) && |c| == P.n && 0 <= i <= k < P.n
    ensures TransForward(P, V, c, i)[k] == c[k] - ColumnUpper(P, V, TransForward(P, V, c, P.n), k, i)
    decreases i
  {
    if i > 0 {
      TransForwardPending(P, V, c, i - 1, k);
      UpperTransStepAt(P, V, TransForward(P, V, c, i - 1), i - 1, k);
      TransForwardDone(P, V, c, i - 1, P.n);
    }
  }

  /** Entry k of the sweep, in terms of the finished entries left of it. */
  lemma TransForwardAt(P: Pattern, V: seq<real>, c: seq<real>, k: int)
    requires Stored(P, V) && |c| == P.n && 0 <= k < P.n
    ensures TransForward(P, V, c, P.n)[k]
      == Scale(c[k] - ColumnUpper(P, V, TransForward(P, V, c, P.n), k, P.n), V[P.diag[k] - 1])
  {
    var Z := TransForward(P, V, c, P.n);
    TransForwardPending(P, V, c, k, k);
    UpperTransStepAt(P, V, TransForward(P, V, c, k), k, k);
    TransForwardDone(P, V, c, k, P.n);
    ColumnUpperRest(P, V, Z, k, P.n);
  }

  /** The U^T sweep gives a solution of U^T z = c, and the only one. */
  lemma TransUpperCharacterized(P: Pattern, V: seq<real>, c: seq<real>, z: seq<real>)
    requires Stored(P, V) && |c| == P.n
    ensures TransUpperSolved(P, V, z, c) <==> z == TransForward(P, V, c, P.n)
  {
    var Z := TransForward(P, V, c, P.n);
    forall k | 0 <= k < P.n
      ensures UpperColumnSolved(P, V, Z, c, k)
    {
      TransForwardAt(P, V, c, k);
    }
    if TransUpperSolved(P, V, z, c) {
      forall k | 0 <= k < P.n
        ensures z[k] == Z[k]
      {
        TransUpperUnique(P, V, c, z, k);
      }
    }
  }

  lemma {:induction false} TransUpperUnique(P: Pattern, V: seq<real>, c: seq<real>, z: seq<real>, k: int)
    requires Stored(P, V) && |c| == P.n && TransUpperSolved(P, V, z, c) && 0 <= k < P.n
    ensures z[k] == TransForward(P, V, c, P.n)[k]
    decreases k
  {
    var Z := TransForward(P, V, c, P.n);
    forall j | 0 <= j < k
      ensures z[j] == Z[j]
    {
      TransUpperUnique(P, V, c, z, j);
    }
    TransForwardAt(P, V, c, k);
    ColumnUpperRest(P, V, z, k, P.n);
    ColumnUpperRest(P, V, Z, k, P.n);
    ColumnUpperFrame(P, V, z, Z, k, k);
    assert UpperColumnSolved(P, V, z, c, k);
  }

  // ---------------------------------------------------------------------
  // Backward solve with L^T (rows in decreasing order, column-oriented).

  /** w after m times each of the first t entries left of the diagonal of
      row j, walking leftwards from the diagonal, is subtracted at its
      column. */
  ghost function SubLower(P: Pattern, V: seq<real>, w: seq<real>, m: real, j: int, t: int): (v: seq<real>)
    requires Stored(P, V) && 0 <= j < P.n && |w| == P.n
    requires 0 <= t <= LowerCount(P, j)
    ensures |v| == P.n
    decreases t
  {
    if t == 0 then w
    else
      var p := P.diag[j] - 1 - t;
      SplitAtDiagonal(P, j);
      var v := SubLower(P, V, w, m, j, t - 1);
      v[P.aj[p] - 1 := Less(v[P.aj[p] - 1], m, V[p])]
  }

  /** The part of SubLower that lands in column k. */
  ghost function LowerHits(P: Pattern, V: seq<real>, m: real, k: int, j: int, t: int): real
    requires Stored(P, V) && 0 <= j < P.n && 0 <= t <= LowerCount(P, j)
    decreases t
  {
    if t == 0 then 0.0
    else
      var p := P.diag[j] - 1 - t;
      SplitAtDiagonal(P, j);
      LowerHits(P, V, m, k, j, t - 1) + (if P.aj[p] - 1 == k then m * V[p] else 0.0)
  }

  lemma {:induction false} SubLowerAt(P: Pattern, V: seq<real>, w: seq<real>, m: real, j: int, t: int, k: int)
    requires Stored(P, V) && 0 <= j < P.n && |w| == P.n && 0 <= t <= LowerCount(P, j) && 0 <= k < P.n
    ensures SubLower(P, V, w, m, j, t)[k] == w[k] - LowerHits(P, V, m, k, j, t)
    ensures j <= k ==> LowerHits(P, V, m, k, j, t) == 0.0
    decreases t
  {
    if t > 0 {
      SubLowerAt(P, V, w, m, j, t - 1, k);
      SplitAtDiagonal(P, j);
    }
  }

  /** The L^T products landing in column k from rows i..n-1, with x. */
  ghost function ColumnLower(P: Pattern, V: seq<real>, x: seq<real>, k: int, i: int): real
    requires Stored(P, V) && |x| == P.n && 0 <= i <= P.n
    decreases P.n - i
  {
    if i == P.n then 0.0
    else ColumnLower(P, V, x, k, i + 1) + LowerHits(P, V, x[i], k, i, LowerCount(P, i))
  }

  /** x solves L^T x = z: each x[k] is z[k] less column k of L below the
      diagonal times x. */
  ghost predicate TransLowerSolved(P: Pattern, V: seq<real>, x: seq<real>, z: seq<real>)
    requires Stored(P, V) && |z| == P.n
  {
    |x| == P.n && forall k :: 0 <= k < P.n ==> LowerColumnSolved(P, V, x, z, k)
  }

  /** Equation k of L^T x = z. */
  ghost predicate LowerColumnSolved(P: Pattern, V: seq<real>, x: seq<real>, z: seq<real>, k: int)
    requires Stored(P, V) && |z| == P.n && |x| == P.n && 0 <= k < P.n
  {
    x[k] == z[k] - ColumnLower(P, V, x, k, 0)
  }

  /** Step i of the L^T sweep: subtract entry i times row i's lower part. */
  ghost function LowerTransStep(P: Pattern, V: seq<real>, w: seq<real>, i: int): (v: seq<real>)
    requires Stored(P, V) && 0 <= i < P.n && |w| == P.n
    ensures |v| == P.n
  {
    SubLower(P, V, w, w[i], i, LowerCount(P, i))
  }

  /** The L^T sweep over rows n-1 down to i, in place on z. */
  ghost function TransBackward(P: Pattern, V: seq<real>, z: seq<real>, i: int): (x: seq<real>)
    requires Stored(P, V) && |z| == P.n && 0 <= i <= P.n
    ensures |x| == P.n
    decreases P.n - i
  {
    if i == P.n then z else LowerTransStep(P, V, TransBackward(P, V, z, i + 1), i)
  }

  lemma {:induction false} ColumnLowerRest(P: Pattern, V: seq<real>, x: seq<real>, k: int, i: int)
    requires Stored(P, V) && |x| == P.n && 0 <= i <= k < P.n
    ensures ColumnLower(P, V, x, k, i) == ColumnLower(P, V, x, k, k + 1)
    decreases P.n - i
  {
    if i <= k {
      if i < k {
        ColumnLowerRest(P, V, x, k, i + 1);
      }
      SubLowerAt(P, V, x, x[i], i, LowerCount(P, i), k);
    }
  }

  lemma {:induction false} ColumnLowerFrame(P: Pattern, V: seq<real>, x: seq<real>, x': seq<real>, k: int, i: int)
    requires Stored(P, V) && |x| == P.n && |x'| == P.n && 0 <= i <= P.n && x[i..] == x'[i..]
    ensures ColumnLower(P, V, x, k, i) == ColumnLower(P, V, x', k, i)
    decreases P.n - i
  {
    if i < P.n {
      assert x[i] == x[i..][0] && x'[i] == x'[i..][0];
      assert x[i + 1..] == x[i..][1..] && x'[i + 1..] == x'[i..][1..];
      ColumnLowerFrame(P, V, x, x', k, i + 1);
    }
  }

  /** Step j leaves the entries at or right of j alone. */
  lemma TransBackwardStable(P: Pattern, V: seq<real>, z: seq<real>, j: int, i: int)
    requires Stored(P, V) && |z| == P.n && 0 <= j <= i <= P.n
    ensures TransBackward(P, V, z, j)[i..] == TransBackward(P, V, z, i)[i..]
    decreases i - j
  {
    if j < i {
      TransBackwardStable(P, V, z, j + 1, i);
      var w := TransBackward(P, V, z, j + 1);
      forall k | i <= k < P.n
        ensures TransBackward(P, V, z, j)[k] == w[k]
      {
        SubLowerAt(P, V, w, w[j], j, LowerCount(P, j), k);
      }
      assert forall k :: i <= k < P.n ==> TransBackward(P, V, z, j)[k] == w[k];
      assert TransBackward(P, V, z, j)[i..] == w[i..];
    }
  }

  /** After rows n-1..i, every entry left of i is z less what those rows,
      with their final values, landed in its column. */
  lemma {:induction false} TransBackwardPending(P: Pattern, V: seq<real>, z: seq<real>, i: int, k: int)
    requires Stored(P, V) && |z| == P.n && 0 <= k < i <= P.n
    ensures TransBackward(P, V, z, i)[k] == z[k] - ColumnLower(P, V, TransBackward(P, V, z, 0), k, i)
    decreases P.n - i
  {
    if i < P.n {
      var X := TransBackward(P, V, z, 0);
      var w := TransBackward(P, V, z, i + 1);
      TransBackwardPending(P, V, z, i + 1, k);
      SubLowerAt(P, V, w, w[i], i, LowerCount(P, i), k);
      SubLowerAt(P, V, w, w[i], i, LowerCount(P, i), i);
      TransBackwardStable(P, V, z, 0, i);
      assert X[i..][0] == TransBackward(P, V, z, i)[i..][0];
    }
  }

  /** The L^T sweep gives a solution of L^T x = z, and the only one. */
  lemma TransLowerCharacterized(P: Pattern, V: seq<real>, z: seq<real>, x: seq<real>)
    requires Stored(P, V) && |z| == P.n
    ensures TransLowerSolved(P, V, x, z) <==> x == TransBackward(P, V, z, 0)
  {
    var X := TransBackward(P, V, z, 0);
    forall k | 0 <= k < P.n
      ensures LowerColumnSolved(P, V, X, z, k)
    {
      TransBackwardPending(P, V, z, k + 1, k);
      var w := TransBackward(P, V, z, k + 1);
      SubLowerAt(P, V, w, w[k], k, LowerCount(P, k), k);
      TransBackwardStable(P, V, z, 0, k);
      assert X[k..][0] == TransBackward(P, V, z, k)[k..][0];
      ColumnLowerRest(P, V, X, k, 0);
    }
    if TransLowerSolved(P, V, x, z) {
      TransLowerUnique(P, V, z, x, 0);
      assert x == x[0..] && X == X[0..];
    }
  }

  lemma {:induction false} TransLowerUnique(P: Pattern, V: seq<real>, z: seq<real>, x: seq<real>, k: int)
    requires Stored(P, V) && |z| == P.n && TransLowerSolved(P, V, x, z) && 0 <= k <= P.n
    requires TransLowerSolved(P, V, TransBackward(P, V, z, 0), z)
    ensures x[k..] == TransBackward(P, V, z, 0)[k..]
    decreases P.n - k
  {
    if k < P.n {
      var X := TransBackward(P, V, z, 0);
      TransLowerUnique(P, V, z, x, k + 1);
      assert LowerColumnSolved(P, V, x, z, k);
      assert LowerColumnSolved(P, V, X, z, k);
      ColumnLowerRest(P, V, x, k, 0);
      ColumnLowerRest(P, V, X, k, 0);
      ColumnLowerFrame(P, V, x, X, k, k + 1);
      assert x[k..] == [x[k]] + x[k + 1..];
      assert X[k..] == [X[k]] + X[k + 1..];
    }
  }

  /** A^T x = b through the factor: z = L^-T U^-T (b∘c), and x[r[i]] = z[i]. */
  ghost function TransValues(P: Pattern, V: seq<real>, c: seq<int>, b: seq<real>): (z: seq<real>)
    requires Stored(P, V) && IndexMap(c, P.n) && |b| == P.n
    ensures |z| == P.n
  {
    TransBackward(P, V, TransForward(P, V, Gather(b, c), P.n), 0)
  }
}
