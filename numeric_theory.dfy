/** What the numeric factorization computes, as linear algebra: the stored
    values are the rows of L (unit diagonal, the multipliers left of it)
    and U (the pivots, stored as reciprocals, and the entries right of
    them), and row i of L*U is row i of the permuted matrix on every column
    of the factor pattern (the incomplete-factorization property), and on
    every column when the pattern is closed under fill. */
module NumericTheory {
  import opened Sparse
  import opened Numeric
  import opened Symbolic

  // ---------------------------------------------------------------------
  // Dense rows of U.

  /** x*y, as a function so that equal factors give equal products without
      arithmetic reasoning. */
  function Times(x: real, y: real): real
  {
    x * y
  }

  /** v + m*u, entry by entry. */
  function AddScaled(v: seq<real>, m: real, u: seq<real>): (w: seq<real>)
    requires |v| == |u|
    ensures |w| == |v| && forall c :: 0 <= c < |v| ==> w[c] == v[c] + Times(m, u[c])
  {
    seq(|v|, c => if 0 <= c < |v| then v[c] + Times(m, u[c]) else 0.0)
  }

  /** u + v, entry by entry. */
  function Plus(u: seq<real>, v: seq<real>): (w: seq<real>)
    requires |u| == |v|
    ensures |w| == |u| && forall c :: 0 <= c < |u| ==> w[c] == u[c] + v[c]
  {
    seq(|u|, c => if 0 <= c < |u| then u[c] + v[c] else 0.0)
  }

  /** Row j of U as a dense row: the pivot (the reciprocal of the stored
      value) on the diagonal, the stored entries right of it. */
  ghost function URow(P: Pattern, V: seq<real>, j: int): (u: seq<real>)
    requires FactorPattern(P) && 0 <= j < P.n && P.ai[j + 1] - 1 <= |V|
    ensures |u| == P.n
  {
    SplitAtDiagonal(P, j);
    UpperPart(P, V, j, UpperCount(P, j))[j := Recip(V[P.diag[j] - 1])]
  }

  /** The upper part of row j has nothing at or left of column j. */
  lemma {:induction false} UpperPartBelow(P: Pattern, V: seq<real>, j: int, t: int, c: int)
    requires FactorPattern(P) && 0 <= j < P.n && P.ai[j + 1] - 1 <= |V|
    requires 0 <= t <= UpperCount(P, j) && 0 <= c <= j
    ensures UpperPart(P, V, j, t)[c] == 0.0
    decreases t
  {
    if t > 0 {
      UpperPartBelow(P, V, j, t - 1, c);
      var q := P.diag[j] + t - 1;
      SplitAtDiagonal(P, j);
    }
  }

  /** Subtracting m times each upper entry is subtracting m times the
      upper part. */
  lemma {:induction false} SubUpperLinear(P: Pattern, V: seq<real>, w: seq<real>, m: real, j: int, t: int, c: int)
    requires FactorPattern(P) && 0 <= j < P.n && P.ai[j + 1] - 1 <= |V| && |w| == P.n
    requires 0 <= t <= UpperCount(P, j) && 0 <= c < P.n
    ensures SubUpper(P, V, w, m, j, t)[c] == w[c] - Times(m, UpperPart(P, V, j, t)[c])
    decreases t
  {
    if t > 0 {
      SubUpperLinear(P, V, w, m, j, t - 1, c);
      var q := P.diag[j] + t - 1;
      if P.aj[q] - 1 == c {
        LessDistributes(w[c], m, UpperPart(P, V, j, t - 1)[c], V[q]);
      }
    }
  }

  lemma LessDistributes(a: real, m: real, u: real, x: real)
    ensures Less(a - Times(m, u), m, x) == a - Times(m, u + x)
  {
  }

  /** One elimination step on a dense row: the multiplier replaces w[j],
      and every other entry loses the multiplier times row j of U (the
      pivot term lands on column j itself, which is overwritten). */
  lemma EliminateDense(P: Pattern, V: seq<real>, w: seq<real>, j: int, c: int)
    requires FactorPattern(P) && 0 <= j < P.n && P.ai[j + 1] - 1 <= |V| && |w| == P.n
    requires 0 <= c < P.n
    ensures EliminateOne(P, V, w, j)[c] ==
              if c == j then Multiplier(P, V, w, j)
              else w[c] - Times(Multiplier(P, V, w, j), URow(P, V, j)[c])
  {
    var m := Multiplier(P, V, w, j);
    UpperPartBelow(P, V, j, UpperCount(P, j), j);
    if w[j] != 0.0 {
      SubUpperLinear(P, V, w[j := m], m, j, UpperCount(P, j), c);
    } else {
      assert m == 0.0;
    }
  }

  /** x times the stored reciprocal, times the pivot, is x again. */
  lemma PivotCancels(x: real, y: real)
    requires y != 0.0
    ensures Times(Times(x, y), Recip(y)) == x
  {
    var z := 1.0 / y;
    assert y * z == 1.0;
    assert Times(Times(x, y), Recip(y)) == (x * y) * z == x * (y * z);
  }

  /** The multiplier times the pivot is the entry it eliminates. */
  lemma MultiplierTimesPivot(P: Pattern, V: seq<real>, w: seq<real>, j: int)
    requires FactorPattern(P) && 0 <= j < P.n && P.ai[j + 1] - 1 <= |V| && |w| == P.n
    requires V[P.diag[j] - 1] != 0.0
    ensures Times(Multiplier(P, V, w, j), URow(P, V, j)[j]) == w[j]
  {
    PivotCancels(w[j], V[P.diag[j] - 1]);
  }

  // ---------------------------------------------------------------------
  // The row invariant of the elimination.

  /** The stored entries of row i come in increasing column order. */
  lemma ColumnsIncrease(P: Pattern, i: int, t: int, t2: int)
    requires FactorPattern(P) && 0 <= i < P.n && Increasing(RowOf(P, i))
    requires 0 <= t < t2 < P.ai[i + 1] - P.ai[i]
    ensures ColAt(P, i, t) < ColAt(P, i, t2)
  {
    assert RowOf(P, i)[t] == ColAt(P, i, t) && RowOf(P, i)[t2] == ColAt(P, i, t2);
  }

  /** The work row w with the columns of the first s lower entries of row i
      set to zero: those columns hold multipliers, not entries of U. */
  ghost function Cleared(P: Pattern, w: seq<real>, i: int, s: int): (v: seq<real>)
    requires FactorPattern(P) && 0 <= i < P.n && |w| == P.n && 0 <= s <= LowerCount(P, i)
    ensures |v| == P.n
    decreases s
  {
    if s == 0 then w else Cleared(P, w, i, s - 1)[ColAt(P, i, s - 1) := 0.0]
  }

  /** The sum, over the first s lower entries of row i, of the multiplier
      held in w at that column times the U row it names. */
  ghost function Combo(P: Pattern, V: seq<real>, w: seq<real>, i: int, s: int): (v: seq<real>)
    requires FactorPattern(P) && 0 <= i < P.n && P.ai[i] - 1 <= |V| && |w| == P.n
    requires 0 <= s <= LowerCount(P, i)
    ensures |v| == P.n
    decreases s
  {
    if s == 0 then Zeros(P.n)
    else
      SplitAtDiagonal(P, i);
      var j := ColAt(P, i, s - 1);
      assert 0 <= j < i;
      PatternPointersLe(P, j + 1, i);
      AddScaled(Combo(P, V, w, i, s - 1), w[j], URow(P, V, j))
  }

  lemma {:induction false} ClearedHit(P: Pattern, w: seq<real>, i: int, s: int, t: int)
    requires FactorPattern(P) && 0 <= i < P.n && |w| == P.n && 0 <= t < s <= LowerCount(P, i)
    ensures Cleared(P, w, i, s)[ColAt(P, i, t)] == 0.0
    decreases s
  {
    if t < s - 1 {
      ClearedHit(P, w, i, s - 1, t);
    }
  }

  lemma {:induction false} ClearedMiss(P: Pattern, w: seq<real>, i: int, s: int, c: int)
    requires FactorPattern(P) && 0 <= i < P.n && |w| == P.n && 0 <= s <= LowerCount(P, i)
    requires 0 <= c < P.n && forall t :: 0 <= t < s ==> ColAt(P, i, t) != c
    ensures Cleared(P, w, i, s)[c] == w[c]
    decreases s
  {
    if s > 0 {
      ClearedMiss(P, w, i, s - 1, c);
    }
  }

  /** Clearing commutes with subtracting a multiple of a row that is zero
      at the cleared columns. */
  lemma {:induction false} ClearedShift(P: Pattern, w: seq<real>, w2: seq<real>, m: real, u: seq<real>, i: int, s: int, c: int)
    requires FactorPattern(P) && 0 <= i < P.n && |w| == P.n && |w2| == P.n && |u| == P.n
    requires 0 <= s <= LowerCount(P, i) && 0 <= c < P.n
    requires w2[c] == w[c] - Times(m, u[c])
    requires forall t :: 0 <= t < s ==> u[ColAt(P, i, t)] == 0.0
    ensures Cleared(P, w2, i, s)[c] == Cleared(P, w, i, s)[c] - Times(m, u[c])
    decreases s
  {
    if s > 0 {
      ClearedShift(P, w, w2, m, u, i, s - 1, c);
    }
  }

  /** The combination reads w only at the lower columns it has passed. */
  lemma {:induction false} ComboFrame(P: Pattern, V: seq<real>, w: seq<real>, w2: seq<real>, i: int, s: int, c: int)
    requires FactorPattern(P) && 0 <= i < P.n && P.ai[i] - 1 <= |V| && |w| == P.n && |w2| == P.n
    requires 0 <= s <= LowerCount(P, i) && 0 <= c < P.n
    requires forall t :: 0 <= t < s ==> w2[ColAt(P, i, t)] == w[ColAt(P, i, t)]
    ensures Combo(P, V, w2, i, s)[c] == Combo(P, V, w, i, s)[c]
    decreases s
  {
    if s > 0 {
      ComboFrame(P, V, w, w2, i, s - 1, c);
      ComboStep(P, V, w, i, s, c);
      ComboStep(P, V, w2, i, s, c);
    }
  }

  /** One more lower entry adds one more multiple of a U row. */
  lemma ComboStep(P: Pattern, V: seq<real>, w: seq<real>, i: int, s: int, c: int)
    requires FactorPattern(P) && 0 <= i < P.n && P.ai[i] - 1 <= |V| && |w| == P.n
    requires 0 < s <= LowerCount(P, i) && 0 <= c < P.n
    ensures ColAt(P, i, s - 1) < i && P.ai[ColAt(P, i, s - 1) + 1] <= P.ai[i]
    ensures Combo(P, V, w, i, s)[c] ==
              Combo(P, V, w, i, s - 1)[c] + Times(w[ColAt(P, i, s - 1)], URow(P, V, ColAt(P, i, s - 1))[c])
  {
    SplitAtDiagonal(P, i);
    var j := ColAt(P, i, s - 1);
    assert 0 <= j < i;
    PatternPointersLe(P, j + 1, i);
  }

  /** No zero pivot among the first i rows: every stored reciprocal is
      nonzero. */
  ghost predicate NonzeroPivots(P: Pattern, V: seq<real>, i: int)
    requires FactorPattern(P) && 0 <= i <= P.n && P.ai[i] - 1 <= |V|
  {
    forall j :: 0 <= j < i ==> (PatternPointersLe(P, j + 1, i); V[P.diag[j] - 1] != 0.0)
  }

  /** Row j of U, for a lower column j of row i, is zero at the lower
      columns before it, and one elimination step leaves them alone. */
  lemma StepFrame(P: Pattern, V: seq<real>, w: seq<real>, i: int, s: int)
    requires FactorPattern(P) && 0 <= i < P.n && P.ai[i] - 1 <= |V| && |w| == P.n
    requires 0 <= s < LowerCount(P, i) && Increasing(RowOf(P, i))
    ensures ColAt(P, i, s) < i && P.ai[ColAt(P, i, s) + 1] <= P.ai[i]
    ensures forall t :: 0 <= t < s ==>
              && ColAt(P, i, t) < ColAt(P, i, s)
              && URow(P, V, ColAt(P, i, s))[ColAt(P, i, t)] == 0.0
              && EliminateOne(P, V, w, ColAt(P, i, s))[ColAt(P, i, t)] == w[ColAt(P, i, t)]
  {
    var j := ColAt(P, i, s);
    assert 0 <= j < i;
    PatternPointersLe(P, j + 1, i);
    forall t | 0 <= t < s
      ensures && ColAt(P, i, t) < j
              && URow(P, V, j)[ColAt(P, i, t)] == 0.0
              && EliminateOne(P, V, w, j)[ColAt(P, i, t)] == w[ColAt(P, i, t)]
    {
      ColumnsIncrease(P, i, t, s);
      UpperPartBelow(P, V, j, UpperCount(P, j), ColAt(P, i, t));
      EliminateDense(P, V, w, j, ColAt(P, i, t));
    }
  }

  /** One elimination step keeps the invariant below. */
  lemma InvariantStep(P: Pattern, V: seq<real>, pr: seq<real>, w: seq<real>, w2: seq<real>, i: int, s: int, c: int)
    requires FactorPattern(P) && 0 <= i < P.n && P.ai[i] - 1 <= |V| && |w| == P.n && |pr| == P.n
    requires 0 < s <= LowerCount(P, i) && 0 <= c < P.n
    requires Increasing(RowOf(P, i)) && NonzeroPivots(P, V, i)
    requires pr[c] == Cleared(P, w, i, s - 1)[c] + Combo(P, V, w, i, s - 1)[c]
    requires ColAt(P, i, s - 1) < i && P.ai[ColAt(P, i, s - 1) + 1] <= P.ai[i]
    requires w2 == EliminateOne(P, V, w, ColAt(P, i, s - 1))
    ensures pr[c] == Cleared(P, w2, i, s)[c] + Combo(P, V, w2, i, s)[c]
  {
    var k := s - 1;
    StepFrame(P, V, w, i, k);
    var j := ColAt(P, i, k);
    var u := URow(P, V, j);
    var m := Multiplier(P, V, w, j);
    var a, b := Cleared(P, w, i, k)[c], Combo(P, V, w, i, k)[c];
    EliminateDense(P, V, w, j, j);
    EliminateDense(P, V, w, j, c);
    ComboFrame(P, V, w, w2, i, k, c);
    ComboStep(P, V, w2, i, s, c);
    assert Combo(P, V, w2, i, s)[c] == b + Times(m, u[c]);
    if c == j {
      ClearedMiss(P, w, i, k, c);
      MultiplierTimesPivot(P, V, w, j);
      assert Cleared(P, w2, i, s)[c] == 0.0;
    } else {
      ClearedShift(P, w, w2, m, u, i, k, c);
      assert Cleared(P, w2, i, s)[c] == a - Times(m, u[c]);
    }
  }

  /** Row i of the permuted matrix, at every column, is the work row after
      s elimination steps with the multipliers cleared, plus the multipliers
      times the U rows they were taken against. */
  lemma {:induction false} RowInvariant(A: Csr, r: seq<int>, ic: seq<int>, P: Pattern, V: seq<real>, i: int, s: int, c: int)
    requires Ready(A, r, ic, P) && 0 <= i < P.n && P.ai[i] - 1 <= |V| && 0 <= c < P.n
    requires 0 <= s <= LowerCount(P, i) && Increasing(RowOf(P, i)) && NonzeroPivots(P, V, i)
    ensures PermutedRow(A, r, ic, P, i)[c] ==
              Cleared(P, Elim(A, r, ic, P, V, i, s), i, s)[c] + Combo(P, V, Elim(A, r, ic, P, V, i, s), i, s)[c]
    decreases s
  {
    if s > 0 {
      RowInvariant(A, r, ic, P, V, i, s - 1, c);
      ElimStep(A, r, ic, P, V, i, s);
      InvariantStep(P, V, PermutedRow(A, r, ic, P, i), Elim(A, r, ic, P, V, i, s - 1), Elim(A, r, ic, P, V, i, s), i, s, c);
    }
  }

  // ---------------------------------------------------------------------
  // Row i of L*U, read from the stored values.

  /** The t-th stored value of row i. */
  ghost function Entry(P: Pattern, W: seq<real>, i: int, t: int): real
    requires FactorPattern(P) && 0 <= i < P.n && P.ai[i + 1] - 1 <= |W|
    requires 0 <= t < P.ai[i + 1] - P.ai[i]
  {
    W[P.ai[i] - 1 + t]
  }

  /** The multipliers stored left of the diagonal of row i (the first s of
      them), each times the U row it names. */
  ghost function LowerSum(P: Pattern, W: seq<real>, i: int, s: int): (v: seq<real>)
    requires FactorPattern(P) && 0 <= i < P.n && P.ai[i + 1] - 1 <= |W| && 0 <= s <= LowerCount(P, i)
    ensures |v| == P.n
    decreases s
  {
    if s == 0 then Zeros(P.n)
    else
      SplitAtDiagonal(P, i);
      var j := ColAt(P, i, s - 1);
      assert 0 <= j < i;
      PatternPointersLe(P, j + 1, i);
      AddScaled(LowerSum(P, W, i, s - 1), Entry(P, W, i, s - 1), URow(P, W, j))
  }

  /** Row i of L*U, where L has a unit diagonal and the multipliers left of
      it, and U the pivots and the entries right of them. */
  ghost function LURow(P: Pattern, W: seq<real>, i: int): (v: seq<real>)
    requires FactorPattern(P) && 0 <= i < P.n && P.ai[i + 1] - 1 <= |W|
    ensures |v| == P.n
  {
    Plus(LowerSum(P, W, i, LowerCount(P, i)), URow(P, W, i))
  }

  /** The reciprocal the factor stores gives back the pivot. */
  lemma RecipInvolution(x: real)
    ensures Recip(Recip(x)) == x
  {
    if x != 0.0 {
      assert Recip(x) * x == 1.0;
    }
  }

  /** Rows of U read only their own stored values. */
  lemma {:induction false} UpperPartFrame(P: Pattern, V1: seq<real>, V2: seq<real>, j: int, t: int, c: int)
    requires FactorPattern(P) && 0 <= j < P.n && P.ai[j + 1] - 1 <= |V1| && P.ai[j + 1] - 1 <= |V2|
    requires 0 <= t <= UpperCount(P, j) && 0 <= c < P.n
    requires forall q :: 0 <= q < P.ai[j + 1] - 1 ==> V1[q] == V2[q]
    ensures UpperPart(P, V1, j, t)[c] == UpperPart(P, V2, j, t)[c]
    decreases t
  {
    if t > 0 {
      UpperPartFrame(P, V1, V2, j, t - 1, c);
    }
  }

  lemma URowFrame(P: Pattern, V1: seq<real>, V2: seq<real>, j: int, m: int, c: int)
    requires FactorPattern(P) && 0 <= j < P.n && P.ai[j + 1] <= m && m - 1 <= |V1| && m - 1 <= |V2|
    requires 0 <= c < P.n
    requires forall q :: 0 <= q < m - 1 ==> V1[q] == V2[q]
    ensures URow(P, V1, j)[c] == URow(P, V2, j)[c]
  {
    UpperPartFrame(P, V1, V2, j, UpperCount(P, j), c);
    assert P.diag[j] < P.ai[j + 1];
  }

  /** The multipliers stored for row i are the combination the elimination
      built, when the U rows are read from the same values. */
  lemma {:induction false} LowerSumIsCombo(P: Pattern, V: seq<real>, W: seq<real>, w: seq<real>, i: int, s: int, c: int)
    requires FactorPattern(P) && 0 <= i < P.n && P.ai[i] - 1 <= |V| && P.ai[i + 1] - 1 <= |W| && |w| == P.n
    requires 0 <= s <= LowerCount(P, i) && 0 <= c < P.n
    requires forall q :: 0 <= q < P.ai[i] - 1 ==> W[q] == V[q]
    requires forall t :: 0 <= t < s ==> Entry(P, W, i, t) == w[ColAt(P, i, t)]
    ensures LowerSum(P, W, i, s)[c] == Combo(P, V, w, i, s)[c]
    decreases s
  {
    if s > 0 {
      LowerSumIsCombo(P, V, W, w, i, s - 1, c);
      LowerSumComboStep(P, V, W, w, i, s, c);
    }
  }

  /** The step of LowerSumIsCombo: its last term is the same on both sides. */
  lemma LowerSumComboStep(P: Pattern, V: seq<real>, W: seq<real>, w: seq<real>, i: int, s: int, c: int)
    requires FactorPattern(P) && 0 <= i < P.n && P.ai[i] - 1 <= |V| && P.ai[i + 1] - 1 <= |W| && |w| == P.n
    requires 0 <= s <= LowerCount(P, i) && 0 <= c < P.n
    requires forall q :: 0 <= q < P.ai[i] - 1 ==> W[q] == V[q]
    requires forall t :: 0 <= t < s ==> Entry(P, W, i, t) == w[ColAt(P, i, t)]
    requires s > 0 && LowerSum(P, W, i, s - 1)[c] == Combo(P, V, w, i, s - 1)[c]
    ensures LowerSum(P, W, i, s)[c] == Combo(P, V, w, i, s)[c]
  {
    LowerSumStep(P, W, i, s, c);
    ComboStep(P, V, w, i, s, c);
    var j := ColAt(P, i, s - 1);
    assert Entry(P, W, i, s - 1) == w[j];
    URowFrame(P, W, V, j, P.ai[i], c);
  }

  lemma LowerSumStep(P: Pattern, W: seq<real>, i: int, s: int, c: int)
    requires FactorPattern(P) && 0 <= i < P.n && P.ai[i + 1] - 1 <= |W|
    requires 0 < s <= LowerCount(P, i) && 0 <= c < P.n
    ensures ColAt(P, i, s - 1) < i && P.ai[ColAt(P, i, s - 1) + 1] <= P.ai[i]
    ensures LowerSum(P, W, i, s)[c] ==
              LowerSum(P, W, i, s - 1)[c] + Times(Entry(P, W, i, s - 1), URow(P, W, ColAt(P, i, s - 1))[c])
  {
    SplitAtDiagonal(P, i);
    var j := ColAt(P, i, s - 1);
    assert 0 <= j < i;
    PatternPointersLe(P, j + 1, i);
  }

  /** In a sorted row, the upper part built from the first k entries right
      of the diagonal holds the stored value at each of their columns and
      nothing yet at the later ones. */
  lemma {:induction false} UpperPartAt(P: Pattern, W: seq<real>, i: int, k: int, p: int)
    requires FactorPattern(P) && 0 <= i < P.n && P.ai[i + 1] - 1 <= |W| && Increasing(RowOf(P, i))
    requires 0 <= k <= UpperCount(P, i) && LowerCount(P, i) < p < P.ai[i + 1] - P.ai[i]
    ensures UpperPart(P, W, i, k)[ColAt(P, i, p)] ==
              if p <= LowerCount(P, i) + k then Entry(P, W, i, p) else 0.0
    decreases k
  {
    if k > 0 {
      UpperPartAt(P, W, i, k - 1, p);
      var t := LowerCount(P, i) + k;
      if p < t {
        ColumnsIncrease(P, i, p, t);
      } else if p > t {
        ColumnsIncrease(P, i, t, p);
      }
      UpperPartStep(P, W, i, k, p);
    }
  }

  /** One step of UpperPartAt: adding the k-th upper entry touches only its
      own column. */
  lemma UpperPartStep(P: Pattern, W: seq<real>, i: int, k: int, p: int)
    requires FactorPattern(P) && 0 <= i < P.n && P.ai[i + 1] - 1 <= |W|
    requires 0 < k <= UpperCount(P, i) && LowerCount(P, i) < p < P.ai[i + 1] - P.ai[i]
    requires p != LowerCount(P, i) + k ==> ColAt(P, i, p) != ColAt(P, i, LowerCount(P, i) + k)
    requires UpperPart(P, W, i, k - 1)[ColAt(P, i, p)] ==
               if p <= LowerCount(P, i) + k - 1 then Entry(P, W, i, p) else 0.0
    ensures UpperPart(P, W, i, k)[ColAt(P, i, p)] ==
              if p <= LowerCount(P, i) + k then Entry(P, W, i, p) else 0.0
  {
    SplitAtDiagonal(P, i);
    assert ColAt(P, i, LowerCount(P, i) + k) == P.aj[P.diag[i] + k - 1] - 1;
  }

  /** The upper part of row j holds nothing outside the row's columns. */
  lemma {:induction false} UpperPartOff(P: Pattern, V: seq<real>, j: int, k: int, c: int)
    requires FactorPattern(P) && 0 <= j < P.n && P.ai[j + 1] - 1 <= |V|
    requires 0 <= k <= UpperCount(P, j) && 0 <= c < P.n && c !in RowOf(P, j)
    ensures UpperPart(P, V, j, k)[c] == 0.0
    decreases k
  {
    if k > 0 {
      UpperPartOff(P, V, j, k - 1, c);
      StoredColumnInRow(P, j, P.diag[j] + k - 1);
    }
  }

  /** Every column stored in row j's slice of aj is in RowOf(P, j). */
  lemma StoredColumnInRow(P: Pattern, j: int, q: int)
    requires Shaped(P) && 0 <= j < P.n && P.ai[j] - 1 <= q < P.ai[j + 1] - 1
    ensures P.aj[q] - 1 in RowOf(P, j)
  {
    assert RowOf(P, j)[q - (P.ai[j] - 1)] == P.aj[q] - 1;
  }

  /** Values of rows above k stay as they are when later rows are added. */
  lemma {:induction false} FactorValuesPrefix(A: Csr, r: seq<int>, ic: seq<int>, P: Pattern, k: int, m: int)
    requires Ready(A, r, ic, P) && 0 <= k <= m <= P.n
    ensures P.ai[k] - 1 <= |FactorValues(A, r, ic, P, m)|
    ensures FactorValues(A, r, ic, P, m)[..P.ai[k] - 1] == FactorValues(A, r, ic, P, k)
    decreases m
  {
    var x := P.ai[k] - 1;
    if m == k {
      var V := FactorValues(A, r, ic, P, k);
      assert V[..x] == V;
    } else {
      FactorValuesPrefix(A, r, ic, P, k, m - 1);
      var V := FactorValues(A, r, ic, P, m - 1);
      var R := RowValues(A, r, ic, P, V, m - 1);
      assert FactorValues(A, r, ic, P, m) == V + R;
      PatternPointersLe(P, k, m - 1);
      PrefixOfAppend(FactorValues(A, r, ic, P, m), V, R, FactorValues(A, r, ic, P, k), x);
    }
  }

  /** A prefix of V is a prefix of V + R. */
  lemma PrefixOfAppend(W: seq<real>, V: seq<real>, R: seq<real>, F: seq<real>, x: int)
    requires W == V + R && 0 <= x <= |V| && V[..x] == F
    ensures x <= |W| && W[..x] == F
  {
    assert (V + R)[..x] == V[..x];
  }

  /** In the full stored values, the part before row i is the values the
      elimination of row i read, and row i's part is the row it stored. */
  lemma StoredRow(A: Csr, r: seq<int>, ic: seq<int>, P: Pattern, i: int)
    requires Ready(A, r, ic, P) && 0 <= i < P.n
    ensures forall q :: 0 <= q < P.ai[i] - 1 ==>
              FactorValues(A, r, ic, P, P.n)[q] == FactorValues(A, r, ic, P, i)[q]
    ensures forall t :: 0 <= t < P.ai[i + 1] - P.ai[i] ==>
              Entry(P, FactorValues(A, r, ic, P, P.n), i, t) ==
              RowValues(A, r, ic, P, FactorValues(A, r, ic, P, i), i)[t]
  {
    var V := FactorValues(A, r, ic, P, i);
    var R := RowValues(A, r, ic, P, V, i);
    var W := FactorValues(A, r, ic, P, P.n);
    FactorValuesPrefix(A, r, ic, P, i + 1, P.n);
    assert FactorValues(A, r, ic, P, i + 1) == V + R;
    RowInPrefix(P, W, V, R, i);
  }

  /** Values whose prefix up to row i's end is V + R hold V before row i
      and R as row i's entries. */
  lemma RowInPrefix(P: Pattern, W: seq<real>, V: seq<real>, R: seq<real>, i: int)
    requires FactorPattern(P) && 0 <= i < P.n && P.ai[i + 1] - 1 <= |W|
    requires |V| == P.ai[i] - 1 && W[..P.ai[i + 1] - 1] == V + R
    ensures forall q :: 0 <= q < P.ai[i] - 1 ==> W[q] == V[q]
    ensures forall t :: 0 <= t < P.ai[i + 1] - P.ai[i] ==> Entry(P, W, i, t) == R[t]
  {
    var b := P.ai[i + 1] - 1;
    forall q | 0 <= q < |V|
      ensures W[q] == V[q]
    {
      assert W[q] == W[..b][q];
    }
    forall t | 0 <= t < P.ai[i + 1] - P.ai[i]
      ensures Entry(P, W, i, t) == R[t]
    {
      assert W[|V| + t] == W[..b][|V| + t];
    }
  }

  // ---------------------------------------------------------------------
  // Row i of U against the finished work row.

  /** Left of the diagonal, the cleared work row and U's row i agree: both
      are zero at the multipliers' columns, and elsewhere the work row is
      zero when it is zero off the pattern. */
  lemma ClearedLeft(P: Pattern, W: seq<real>, w: seq<real>, i: int, c: int)
    requires FactorPattern(P) && 0 <= i < P.n && P.ai[i + 1] - 1 <= |W| && |w| == P.n
    requires 0 <= c < i
    requires c !in RowOf(P, i) ==> w[c] == 0.0
    ensures Cleared(P, w, i, LowerCount(P, i))[c] == URow(P, W, i)[c]
  {
    var L := LowerCount(P, i);
    UpperPartBelow(P, W, i, UpperCount(P, i), c);
    assert URow(P, W, i)[c] == 0.0;
    if t :| 0 <= t < L && ColAt(P, i, t) == c {
      ClearedHit(P, w, i, L, t);
    } else {
      ClearedMiss(P, w, i, L, c);
      MissedLeftColumn(P, i, c);
    }
  }

  /** A column left of i that no multiplier of row i names is not in the
      row at all: the entries from the diagonal on lie at or right of i. */
  lemma MissedLeftColumn(P: Pattern, i: int, c: int)
    requires FactorPattern(P) && 0 <= i < P.n && 0 <= c < i
    requires forall t :: 0 <= t < LowerCount(P, i) ==> ColAt(P, i, t) != c
    ensures c !in RowOf(P, i)
  {
    SplitAtDiagonal(P, i);
    forall p | 0 <= p < |RowOf(P, i)|
      ensures RowOf(P, i)[p] != c
    {
      assert RowOf(P, i)[p] == ColAt(P, i, p);
    }
  }

  /** At and right of the diagonal, the cleared work row is the work row,
      and U's row i is the pivot and the stored entries. */
  lemma ClearedRight(P: Pattern, W: seq<real>, w: seq<real>, i: int, c: int)
    requires FactorPattern(P) && 0 <= i < P.n && P.ai[i + 1] - 1 <= |W| && |w| == P.n
    requires Increasing(RowOf(P, i)) && i <= c < P.n
    requires forall t :: 0 <= t < P.ai[i + 1] - P.ai[i] ==>
               Entry(P, W, i, t) == w[i := Recip(w[i])][ColAt(P, i, t)]
    requires c !in RowOf(P, i) ==> w[c] == 0.0
    ensures Cleared(P, w, i, LowerCount(P, i))[c] == URow(P, W, i)[c]
  {
    var L := LowerCount(P, i);
    SplitAtDiagonal(P, i);
    ClearedMiss(P, w, i, L, c);
    if c == i {
      ClearedAtPivot(P, W, w, i);
    } else if c in RowOf(P, i) {
      ClearedAtUpper(P, W, w, i, c);
    } else {
      UpperPartOff(P, W, i, UpperCount(P, i), c);
    }
  }

  /** The pivot column of U row i holds the pivot, inverted twice. */
  lemma ClearedAtPivot(P: Pattern, W: seq<real>, w: seq<real>, i: int)
    requires FactorPattern(P) && 0 <= i < P.n && P.ai[i + 1] - 1 <= |W| && |w| == P.n
    requires forall t :: 0 <= t < P.ai[i + 1] - P.ai[i] ==>
               Entry(P, W, i, t) == w[i := Recip(w[i])][ColAt(P, i, t)]
    ensures w[i] == URow(P, W, i)[i]
  {
    SplitAtDiagonal(P, i);
    var L := LowerCount(P, i);
    assert P.ai[i] - 1 + L == P.diag[i] - 1;
    assert ColAt(P, i, L) == i;
    assert Entry(P, W, i, L) == Recip(w[i]);
    RecipInvolution(w[i]);
  }

  /** An upper column of row i right of the pivot holds its stored value in U. */
  lemma ClearedAtUpper(P: Pattern, W: seq<real>, w: seq<real>, i: int, c: int)
    requires FactorPattern(P) && 0 <= i < P.n && P.ai[i + 1] - 1 <= |W| && |w| == P.n
    requires Increasing(RowOf(P, i)) && i < c < P.n && c in RowOf(P, i)
    requires forall t :: 0 <= t < P.ai[i + 1] - P.ai[i] ==>
               Entry(P, W, i, t) == w[i := Recip(w[i])][ColAt(P, i, t)]
    ensures w[c] == URow(P, W, i)[c]
  {
    SplitAtDiagonal(P, i);
    var p :| 0 <= p < |RowOf(P, i)| && RowOf(P, i)[p] == c;
    assert ColAt(P, i, p) == c;
    assert p > LowerCount(P, i);
    assert Entry(P, W, i, p) == w[c];
    UpperPartAt(P, W, i, UpperCount(P, i), p);
  }

  /** Row i of L*U at column c, from the stored values W: the values before
      row i are the V the elimination read, row i holds the finished work
      row w (pivot inverted), and w is zero at c when c is off the pattern. */
  lemma RowFromParts(P: Pattern, V: seq<real>, W: seq<real>, w: seq<real>, i: int, c: int)
    requires FactorPattern(P) && 0 <= i < P.n && P.ai[i] - 1 <= |V| && P.ai[i + 1] - 1 <= |W| && |w| == P.n
    requires 0 <= c < P.n && Increasing(RowOf(P, i))
    requires forall q :: 0 <= q < P.ai[i] - 1 ==> W[q] == V[q]
    requires forall t :: 0 <= t < P.ai[i + 1] - P.ai[i] ==>
               Entry(P, W, i, t) == w[i := Recip(w[i])][ColAt(P, i, t)]
    requires c !in RowOf(P, i) ==> w[c] == 0.0
    ensures Cleared(P, w, i, LowerCount(P, i))[c] + Combo(P, V, w, i, LowerCount(P, i))[c] == LURow(P, W, i)[c]
  {
    var L := LowerCount(P, i);
    forall t | 0 <= t < L
      ensures Entry(P, W, i, t) == w[ColAt(P, i, t)]
    {
      assert ColAt(P, i, t) < i;
    }
    LowerSumIsCombo(P, V, W, w, i, L, c);
    if c < i {
      ClearedLeft(P, W, w, i, c);
    } else {
      ClearedRight(P, W, w, i, c);
    }
  }

  /** Row i of the permuted matrix against row i of L*U from the stored
      values, at a column of the pattern, or at any column where the
      eliminated row is zero off the pattern. */
  lemma FactoredRowAt(A: Csr, r: seq<int>, ic: seq<int>, P: Pattern, i: int, c: int)
    requires Ready(A, r, ic, P) && 0 <= i < P.n && 0 <= c < P.n && Increasing(RowOf(P, i))
    requires NonzeroPivots(P, FactorValues(A, r, ic, P, P.n), i)
    requires c !in RowOf(P, i) ==>
               Elim(A, r, ic, P, FactorValues(A, r, ic, P, i), i, LowerCount(P, i))[c] == 0.0
    ensures PermutedRow(A, r, ic, P, i)[c] == LURow(P, FactorValues(A, r, ic, P, P.n), i)[c]
  {
    var W := FactorValues(A, r, ic, P, P.n);
    var V := FactorValues(A, r, ic, P, i);
    var w := Elim(A, r, ic, P, V, i, LowerCount(P, i));
    StoredWorkRow(A, r, ic, P, i);
    PivotsBefore(P, V, W, i);
    RowInvariant(A, r, ic, P, V, i, LowerCount(P, i), c);
    RowFromParts(P, V, W, w, i, c);
  }

  /** Row i of the stored values is the finished work row, pivot inverted. */
  lemma StoredWorkRow(A: Csr, r: seq<int>, ic: seq<int>, P: Pattern, i: int)
    requires Ready(A, r, ic, P) && 0 <= i < P.n
    ensures forall q :: 0 <= q < P.ai[i] - 1 ==>
              FactorValues(A, r, ic, P, P.n)[q] == FactorValues(A, r, ic, P, i)[q]
    ensures var w := Elim(A, r, ic, P, FactorValues(A, r, ic, P, i), i, LowerCount(P, i));
            forall t :: 0 <= t < P.ai[i + 1] - P.ai[i] ==>
              Entry(P, FactorValues(A, r, ic, P, P.n), i, t) == w[i := Recip(w[i])][ColAt(P, i, t)]
  {
    StoredRow(A, r, ic, P, i);
  }

  /** Nonzero pivots in the stored values are nonzero pivots in any values
      that agree with them before row i. */
  lemma PivotsBefore(P: Pattern, V: seq<real>, W: seq<real>, i: int)
    requires FactorPattern(P) && 0 <= i < P.n && P.ai[i] - 1 <= |V| && P.ai[i] - 1 <= |W|
    requires forall q :: 0 <= q < P.ai[i] - 1 ==> W[q] == V[q]
    requires NonzeroPivots(P, W, i)
    ensures NonzeroPivots(P, V, i)
  {
    forall j | 0 <= j < i
      ensures P.ai[j + 1] <= P.ai[i] && V[P.diag[j] - 1] != 0.0
    {
      PatternPointersLe(P, j + 1, i);
    }
  }

  /** The incomplete-factorization property: on every column of the factor
      pattern, row i of L*U is row i of the permuted matrix. */
  lemma FactorAgreesOnPattern(A: Csr, r: seq<int>, ic: seq<int>, P: Pattern, i: int, c: int)
    requires Ready(A, r, ic, P) && 0 <= i < P.n && Increasing(RowOf(P, i))
    requires NonzeroPivots(P, FactorValues(A, r, ic, P, P.n), i)
    requires c in RowOf(P, i)
    ensures 0 <= c < P.n
    ensures PermutedRow(A, r, ic, P, i)[c] == LURow(P, FactorValues(A, r, ic, P, P.n), i)[c]
  {
    var p :| 0 <= p < |RowOf(P, i)| && RowOf(P, i)[p] == c;
    PatternPointersLe(P, i, i + 1);
    assert ColAt(P, i, p) == c;
    FactoredRowAt(A, r, ic, P, i, c);
  }

  // ---------------------------------------------------------------------
  // Closed patterns: the complete factorization.

  /** Row i of the pattern holds the permuted row's columns and the fill
      each earlier row it references brings in. */
  ghost predicate RowClosed(A: Csr, r: seq<int>, ic: seq<int>, P: Pattern, i: int)
    requires Ready(A, r, ic, P) && IsPermutation(r, P.n) && 0 <= i < P.n
  {
    && (forall x :: x in PermRow(A, r, ic, i) ==> x in RowOf(P, i))
    && (forall j, y :: 0 <= j < i && j in RowOf(P, i) && y in RowOf(P, j) && j <= y ==> y in RowOf(P, i))
  }

  /** Every row of the pattern the symbolic LU produces is closed. */
  lemma LUPatternRowClosed(A: Csr, r: seq<int>, ic: seq<int>, P: Pattern, i: int)
    requires Ready(A, r, ic, P) && IsPermutation(r, P.n) && 0 <= i < P.n
    requires IsLUPattern(A, r, ic, P)
    ensures Increasing(RowOf(P, i)) && RowClosed(A, r, ic, P, i)
  {
    var rows := seq(P.n, k => if 0 <= k < P.n then RowOf(P, k) else []);
    assert RowBuilt(A, r, ic, rows, i);
    assert rows[i] == RowOf(P, i);
    forall j, y | 0 <= j < i && j in RowOf(P, i) && y in RowOf(P, j) && j <= y
      ensures y in RowOf(P, i)
    {
      assert rows[j] == RowOf(P, j);
    }
  }

  /** A permuted row is zero off its own columns. */
  lemma {:induction false} LoadedOff(A: Csr, r: seq<int>, ic: seq<int>, P: Pattern, i: int, t: int, c: int)
    requires Ready(A, r, ic, P) && IsPermutation(r, P.n) && 0 <= i < P.n && 0 <= c < P.n
    requires 0 <= t <= A.ai[r[i] + 1] - A.ai[r[i]] && c !in PermRow(A, r, ic, i)
    ensures Loaded(A, r, ic, P, i, t)[c] == 0.0
    decreases t
  {
    if t > 0 {
      LoadedOff(A, r, ic, P, i, t - 1, c);
      var p := A.ai[r[i]] - 1 + t - 1;
      assert PermRow(A, r, ic, i)[t - 1] == ic[A.aj[p] - 1];
    }
  }

  /** On a closed row the elimination stays zero off the pattern: each U
      row it subtracts lies inside the pattern right of its pivot. */
  lemma {:induction false} ElimOff(A: Csr, r: seq<int>, ic: seq<int>, P: Pattern, V: seq<real>, i: int, s: int, c: int)
    requires Ready(A, r, ic, P) && IsPermutation(r, P.n) && 0 <= i < P.n && P.ai[i] - 1 <= |V|
    requires 0 <= s <= LowerCount(P, i) && 0 <= c < P.n
    requires RowClosed(A, r, ic, P, i) && c !in RowOf(P, i)
    ensures Elim(A, r, ic, P, V, i, s)[c] == 0.0
    decreases s
  {
    if s == 0 {
      LoadedOff(A, r, ic, P, i, A.ai[r[i] + 1] - A.ai[r[i]], c);
    } else {
      ElimOff(A, r, ic, P, V, i, s - 1, c);
      SplitAtDiagonal(P, i);
      var j := ColAt(P, i, s - 1);
      assert 0 <= j < i;
      PatternPointersLe(P, j + 1, i);
      assert RowOf(P, i)[s - 1] == j;
      EliminateOff(P, V, Elim(A, r, ic, P, V, i, s - 1), j, c);
    }
  }

  /** Eliminating with row j keeps a zero at a column that row j's upper
      part does not hold. */
  lemma EliminateOff(P: Pattern, V: seq<real>, w: seq<real>, j: int, c: int)
    requires FactorPattern(P) && 0 <= j < P.n && P.ai[j + 1] - 1 <= |V| && |w| == P.n
    requires 0 <= c < P.n && c != j && w[c] == 0.0 && (j < c ==> c !in RowOf(P, j))
    ensures EliminateOne(P, V, w, j)[c] == 0.0
  {
    EliminateDense(P, V, w, j, c);
    if j < c {
      UpperPartOff(P, V, j, UpperCount(P, j), c);
    } else {
      UpperPartBelow(P, V, j, UpperCount(P, j), c);
    }
    assert Times(Multiplier(P, V, w, j), 0.0) == 0.0;
  }

  /** The complete factorization: when row i of the pattern is closed
      under fill, row i of L*U is row i of the permuted matrix. */
  lemma FactorReconstructsRow(A: Csr, r: seq<int>, ic: seq<int>, P: Pattern, i: int)
    requires Ready(A, r, ic, P) && IsPermutation(r, P.n) && 0 <= i < P.n
    requires Increasing(RowOf(P, i)) && RowClosed(A, r, ic, P, i)
    requires NonzeroPivots(P, FactorValues(A, r, ic, P, P.n), i)
    ensures PermutedRow(A, r, ic, P, i) == LURow(P, FactorValues(A, r, ic, P, P.n), i)
  {
    var V := FactorValues(A, r, ic, P, i);
    forall c | 0 <= c < P.n
      ensures PermutedRow(A, r, ic, P, i)[c] == LURow(P, FactorValues(A, r, ic, P, P.n), i)[c]
    {
      if c !in RowOf(P, i) {
        ElimOff(A, r, ic, P, V, i, LowerCount(P, i), c);
      }
      FactoredRowAt(A, r, ic, P, i, c);
    }
  }

  /** The complete factorization: on the pattern the symbolic LU produces,
      with nonzero pivots, row i of L·U equals row i of the permuted matrix
      at every column. */
  lemma LUFactorReconstructsRow(A: Csr, r: seq<int>, ic: seq<int>, P: Pattern, i: int)
    requires Ready(A, r, ic, P) && IsPermutation(r, P.n) && 0 <= i < P.n
    requires IsLUPattern(A, r, ic, P)
    requires NonzeroPivots(P, FactorValues(A, r, ic, P, P.n), i)
    ensures PermutedRow(A, r, ic, P, i) == LURow(P, FactorValues(A, r, ic, P, P.n), i)
  {
    LUPatternRowClosed(A, r, ic, P, i);
    FactorReconstructsRow(A, r, ic, P, i);
  }
}
