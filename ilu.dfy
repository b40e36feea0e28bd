/** Symbolic ILU(k) factorization (MatILUFactorSymbolic_AIJ): the same
    row-by-row merge as the exact symbolic factorization, but every entry
    carries a level of fill (-1 for an original entry, the parent's level
    plus one for fill), and fill is only inserted while its level is below
    the `levels` threshold. */
module ILU {
  import opened Sparse
  import opened FillList
  import opened Symbolic

  /** Each row's levels sit beside its columns. */
  ghost predicate Aligned(rows: seq<seq<int>>, levs: seq<seq<int>>)
  {
    |levs| == |rows| && forall k :: 0 <= k < |rows| ==> |levs[k]| == |rows[k]|
  }

  /** No row of L before row j holds column x at a level whose successor
      is below `levels`: row j is the first listed row to offer x. */
  ghost predicate NoEarlierOffer(rows: seq<seq<int>>, levs: seq<seq<int>>, levels: int,
                                 L: seq<int>, j: int, x: int)
    requires Aligned(rows, levs)
  {
    forall h, q :: 0 <= h < j && h < |rows| && h in L && 0 <= q < |rows[h]| && rows[h][q] == x
      ==> levels <= levs[h][q] + 1
  }

  /** What row k of an ILU factor built from `rows` (with levels `levs`)
      must satisfy: increasing columns in 0..n-1; the permuted original row,
      at level -1; every upper entry of an earlier row it references whose
      level plus one is below `levels`; and every other entry is fill at a
      level in 0..levels-1, one more than the level of the same column in
      the first earlier row it references that offers the column at such a
      level. */
  ghost predicate ILURowBuilt(A: Csr, r: seq<int>, ic: seq<int>, levels: int,
                              rows: seq<seq<int>>, levs: seq<seq<int>>, k: int)
    requires WellFormed(A) && IsPermutation(r, A.m) && |ic| == A.n
    requires Aligned(rows, levs) && 0 <= k < |rows| && k < A.m
  {
    var PR := PermRow(A, r, ic, k);
    && Increasing(rows[k])
    && ColumnsIn(rows[k], A.n)
    && (forall x :: x in PR ==> x in rows[k])
    && (forall p :: 0 <= p < |rows[k]| && rows[k][p] in PR ==> levs[k][p] == -1)
    && (forall j, q :: (0 <= j < k && j in rows[k] && 0 <= q < |rows[j]| && j <= rows[j][q]
                         && levs[j][q] + 1 < levels) ==> rows[j][q] in rows[k])
    && (forall p :: 0 <= p < |rows[k]| && rows[k][p] !in PR ==>
          0 <= levs[k][p] < levels &&
          exists j, q :: 0 <= j < k && j in rows[k] && j < rows[k][p] && 0 <= q < |rows[j]|
            && rows[j][q] == rows[k][p] && levs[k][p] == levs[j][q] + 1
            && NoEarlierOffer(rows, levs, levels, rows[k], j, rows[k][p]))
  }

  ghost predicate ILURowsBuilt(A: Csr, r: seq<int>, ic: seq<int>, levels: int,
                               rows: seq<seq<int>>, levs: seq<seq<int>>)
    requires WellFormed(A) && IsPermutation(r, A.m) && |ic| == A.n
    requires Aligned(rows, levs) && |rows| <= A.m
  {
    forall k :: 0 <= k < |rows| ==> ILURowBuilt(A, r, ic, levels, rows, levs, k)
  }

  lemma ILURowsBuiltAppend(A: Csr, r: seq<int>, ic: seq<int>, levels: int,
                           rows: seq<seq<int>>, levs: seq<seq<int>>, L: seq<int>, LV: seq<int>)
    requires WellFormed(A) && IsPermutation(r, A.m) && |ic| == A.n && |rows| < A.m
    requires Aligned(rows, levs) && |LV| == |L|
    requires ILURowsBuilt(A, r, ic, levels, rows, levs)
    requires ILURowBuilt(A, r, ic, levels, rows + [L], levs + [LV], |rows|)
    ensures Aligned(rows + [L], levs + [LV])
    ensures ILURowsBuilt(A, r, ic, levels, rows + [L], levs + [LV])
  {
    forall k | 0 <= k < |rows|
      ensures ILURowBuilt(A, r, ic, levels, rows + [L], levs + [LV], k)
    {
      assert ILURowBuilt(A, r, ic, levels, rows, levs, k);
      assert forall j :: 0 <= j <= k ==> (rows + [L])[j] == rows[j] && (levs + [LV])[j] == levs[j];
      forall j, x | 0 <= j < k && NoEarlierOffer(rows, levs, levels, rows[k], j, x)
        ensures NoEarlierOffer(rows + [L], levs + [LV], levels, rows[k], j, x)
      {
      }
    }
  }

  /** The ILU(levels) pattern of A under the row permutation r and the
      inverse column permutation ic, with the level of every entry. */
  ghost predicate IsILUPattern(A: Csr, r: seq<int>, ic: seq<int>, levels: int, P: Pattern, levs: seq<seq<int>>)
    requires WellFormed(A) && IsPermutation(r, A.m) && |ic| == A.n
  {
    && Shaped(P)
    && P.n == A.n == A.m
    && (forall k :: 0 <= k < P.n ==> SplitAt(RowOf(P, k), k, P.diag[k] - P.ai[k]))
    && var rows := seq(P.n, k => if 0 <= k < P.n then RowOf(P, k) else []);
       Aligned(rows, levs) && ILURowsBuilt(A, r, ic, levels, rows, levs)
  }

  /** The levels of the list entries, in list order, read from `lf`. */
  ghost function LevelsOf(lf: seq<int>, L: seq<int>): (LV: seq<int>)
    requires forall t :: 0 <= t < |L| ==> 0 <= L[t] < |lf|
    ensures |LV| == |L| && forall t :: 0 <= t < |L| ==> LV[t] == lf[L[t]]
  {
    seq(|L|, t => if 0 <= t < |L| then lf[L[t]] else 0)
  }

  // ---------------------------------------------------------------------
  // The steps of one row.

  /** Loads the permuted original row into the list, each entry at level -1. */
  method ILULoadRow(fill: array<int>, lfill: array<int>, A: Csr, r: seq<int>, ic: seq<int>, i: int)
      returns (nnz: int, ghost L: seq<int>)
    requires WellFormed(A) && NoDuplicateColumns(A) && A.m == A.n
    requires IsPermutation(r, A.n) && IsPermutation(ic, A.n)
    requires fill.Length == A.n + 1 && lfill.Length == A.n + 1 && fill != lfill && 0 <= i < A.n
    modifies fill, lfill
    ensures IsList(fill[..], A.n, L) && nnz == |L|
    ensures forall x :: x in L <==> x in PermRow(A, r, ic, i)
    ensures forall x :: x in L ==> lfill[x] == -1
  {
    var n := A.n;
    var lo := A.ai[r[i]] - 1;
    var nz := A.ai[r[i] + 1] - A.ai[r[i]];
    nnz := nz;
    ghost var PR := PermRow(A, r, ic, i);
    PermRowDistinct(A, r, ic, i);
    fill[n] := n;
    L := [];
    var p := 0;
    while p < nz
      invariant 0 <= p <= nz == |PR|
      invariant IsList(fill[..], n, L) && |L| == p
      invariant forall x :: x in L <==> x in PR[..p]
      invariant forall x :: x in L ==> lfill[x] == -1
    {
      var idx := ic[A.aj[lo + p] - 1];
      assert idx == PR[p];
      assert idx !in L by {
        assert forall q :: 0 <= q < p ==> PR[q] != PR[p];
      }
      var m, fm, pos := Scan(fill, n, L, idx);
      assert fm != idx by {
        if pos < |L| { assert L[pos] in L; }
      }
      ghost var L0 := L;
      L := Splice(fill, n, L, m, fm, idx, pos);
      lfill[idx] := -1;
      InsertMembers(L0, idx, pos);
      assert PR[..p + 1] == PR[..p] + [idx];
      p := p + 1;
    }
    assert PR[..nz] == PR;
  }

  /** L and the levels lf come from L0 and lf0 by merging the upper part U
      (levels UL) of the row at list position t: the first t + 1 entries
      stay, a column joins when its level UL[s] + 1 is below `levels`, and
      the levels already in L0 do not change. */
  ghost predicate MergedInto(L0: seq<int>, L: seq<int>, lf0: seq<int>, lf: seq<int>,
                             U: seq<int>, UL: seq<int>, levels: int, t: int)
  {
    && 0 <= t < |L0| && t < |L| && L[..t + 1] == L0[..t + 1] && |lf| == |lf0| && |UL| == |U|
    && (forall x :: x in L ==> 0 <= x < |lf|)
    && (forall x :: x in L <==>
          x in L0 || exists s :: 0 <= s < |U| && U[s] == x && UL[s] + 1 < levels)
    && (forall x :: x in L0 && 0 <= x < |lf| ==> lf[x] == lf0[x])
    && (forall x :: x in L && x !in L0 && 0 <= x < |lf| ==>
          exists s :: 0 <= s < |U| && U[s] == x && lf[x] == UL[s] + 1 < levels)
  }

  /** One upper entry of the merged row: column idx, offered at level
      lev + 1. A column not yet listed gets that level in lfill and is
      spliced in when the level is below `levels`; a listed column keeps
      its level. */
  method ILUOffer(fill: array<int>, lfill: array<int>, n: int, levels: int, ghost L0: seq<int>, ghost t: nat,
                  nnz0: int, idx: int, lev: int)
      returns (nnz: int, ghost L: seq<int>)
    requires IsList(fill[..], n, L0) && nnz0 == |L0| && t < |L0| && L0[t] <= idx < n
    requires lfill.Length == n + 1 && fill != lfill
    modifies fill, lfill
    ensures IsList(fill[..], n, L) && nnz == |L| && t < |L| && L[..t + 1] == L0[..t + 1]
    ensures forall x :: x in L <==> x in L0 || (x == idx && lev + 1 < levels)
    ensures idx in L0 ==> lfill[..] == old(lfill[..])
    ensures idx !in L0 ==> lfill[..] == old(lfill[..])[idx := lev + 1]
  {
    L := L0;
    nnz := nnz0;
    var m, fm, pos := Scan(fill, n, L, idx);
    if fm != idx {
      assert idx !in L by {
        assert forall u :: pos <= u < |L| ==> fm <= L[u];
      }
      lfill[idx] := lev + 1;
      if lfill[idx] < levels {
        assert pos > t by {
          assert forall u :: 0 <= u < t ==> L[u] < L[t];
        }
        L := Splice(fill, n, L0, m, fm, idx, pos);
        InsertMembers(L0, idx, pos);
        assert L[..t + 1] == L0[..t + 1];
        nnz := nnz + 1;
      }
    } else {
      assert idx in L by {
        assert pos < |L| && L[pos] == idx;
      }
    }
  }

  /** Merges the upper part U (levels UL) of an earlier factor row, the list
      entry at position t: a column not yet present gets level UL[s] + 1
      and is spliced in only when that level is below `levels`. */
  method ILUMergeUpper(fill: array<int>, lfill: array<int>, n: int, levels: int,
                       ghost L0: seq<int>, ghost t: nat, nnz0: int,
                       ajnew: array<int>, ajfill: array<int>, lo: int, hi: int,
                       ghost U: seq<int>, ghost UL: seq<int>)
      returns (nnz: int, ghost L: seq<int>)
    requires IsList(fill[..], n, L0) && t < |L0| && nnz0 == |L0|
    requires lfill.Length == n + 1 && fill != lfill
    requires ajnew != fill && ajfill != fill && ajnew != lfill && ajfill != lfill
    requires 0 <= lo <= hi <= ajnew.Length && hi <= ajfill.Length
    requires ajnew[lo..hi] == Shift(U, 1) && ajfill[lo..hi] == UL
    requires forall s :: 0 <= s < |U| ==> L0[t] <= U[s] < n
    modifies fill, lfill
    ensures IsList(fill[..], n, L) && nnz == |L|
    ensures MergedInto(L0, L, old(lfill[..]), lfill[..], U, UL, levels, t)
  {
    L := L0;
    nnz := nnz0;
    var q := lo;
    while q < hi
      invariant lo <= q <= hi
      invariant IsList(fill[..], n, L) && nnz == |L| && t < |L|
      invariant L[..t + 1] == L0[..t + 1]
      invariant forall x :: x in L <==>
                  x in L0 || exists s :: 0 <= s < q - lo && U[s] == x && UL[s] + 1 < levels
      invariant forall x :: x in L0 ==> lfill[x] == old(lfill[x])
      invariant forall x :: x in L && x !in L0 ==>
                  exists s :: 0 <= s < q - lo && U[s] == x && lfill[x] == UL[s] + 1 < levels
    {
      var idx := ajnew[q] - 1;
      assert idx == U[q - lo] by {
        assert ajnew[lo..hi][q - lo] == ajnew[q];
      }
      assert ajfill[q] == UL[q - lo] by {
        assert ajfill[lo..hi][q - lo] == ajfill[q];
      }
      assert L[t] == L0[t] <= idx;
      ghost var L1 := L;
      nnz, L := ILUOffer(fill, lfill, n, levels, L, t, nnz, idx, ajfill[q]);
      assert idx in L && idx !in L1 ==> lfill[idx] == UL[q - lo] + 1 < levels;
      q := q + 1;
    }
  }

  /** Copies the list into the column array and its levels into the level
      array, both from `start` on, counting the entries below the diagonal. */
  method ILUWriteRow(fill: array<int>, lfill: array<int>, n: int, ghost L: seq<int>, nnz: int,
                     ajnew: array<int>, ajfill: array<int>, start: int, i: int)
      returns (nzi: int)
    requires IsList(fill[..], n, L) && nnz == |L| && lfill.Length == n + 1
    requires ajnew != fill && ajnew != lfill && ajfill != fill && ajfill != lfill && ajnew != ajfill
    requires 0 <= start && start + nnz <= ajnew.Length && start + nnz <= ajfill.Length
    modifies ajnew, ajfill
    ensures ajnew[..start] == old(ajnew[..start]) && ajfill[..start] == old(ajfill[..start])
    ensures ajnew[start .. start + nnz] == Shift(L, 1)
    ensures ajfill[start .. start + nnz] == LevelsOf(lfill[..], L)
    ensures SplitAt(L, i, nzi)
  {
    var fm := fill[n];
    nzi := 0;
    var k := 0;
    while k < nnz
      invariant 0 <= k <= nnz && fm == Succ(L, n, k)
      invariant ajnew[..start] == old(ajnew[..start]) && ajfill[..start] == old(ajfill[..start])
      invariant forall s :: 0 <= s < k ==> ajnew[start + s] == L[s] + 1 && ajfill[start + s] == lfill[L[s]]
      invariant 0 <= nzi <= k
      invariant forall s :: 0 <= s < nzi ==> L[s] < i
      invariant forall s :: nzi <= s < k ==> L[s] >= i
      invariant nzi < k ==> L[k - 1] >= i
    {
      if fm < i {
        assert nzi == k;
        nzi := nzi + 1;
      }
      ajnew[start + k] := fm + 1;
      ajfill[start + k] := lfill[fm];
      fm := fill[fm];
      k := k + 1;
    }
    WrittenSlices(ajnew[..], ajfill[..], lfill[..], L, start);
  }

  /** Entries written one by one from `start` on form the shifted columns
      and their levels. */
  lemma WrittenSlices(aj: seq<int>, af: seq<int>, lf: seq<int>, L: seq<int>, start: int)
    requires 0 <= start && start + |L| <= |aj| && start + |L| <= |af|
    requires forall t :: 0 <= t < |L| ==> 0 <= L[t] < |lf|
    requires forall s :: 0 <= s < |L| ==> aj[start + s] == L[s] + 1 && af[start + s] == lf[L[s]]
    ensures aj[start .. start + |L|] == Shift(L, 1)
    ensures af[start .. start + |L|] == LevelsOf(lf, L)
  {
  }

  // ---------------------------------------------------------------------
  // The walk over one row.

  /** The upper parts of the first t list entries are merged: each of
      their upper entries whose level plus one is below `levels` is listed. */
  ghost predicate ILUClosed(rows: seq<seq<int>>, levs: seq<seq<int>>, levels: int, L: seq<int>, t: int)
    requires Aligned(rows, levs)
  {
    forall s, q :: (0 <= s < t && s < |L| && 0 <= L[s] < |rows| && 0 <= q < |rows[L[s]]|
                    && L[s] <= rows[L[s]][q] && levs[L[s]][q] + 1 < levels) ==> rows[L[s]][q] in L
  }

  /** Every list entry that is not original is fill at a level in
      0..levels-1, one more than its level in the first of the first t
      list entries that offers it at such a level. */
  ghost predicate ILUJustified(PR: seq<int>, rows: seq<seq<int>>, levs: seq<seq<int>>, levels: int,
                               L: seq<int>, lf: seq<int>, t: int)
    requires Aligned(rows, levs) && 0 <= t <= |L|
  {
    forall x :: x in L && x !in PR ==>
      0 <= x < |lf| && 0 <= lf[x] < levels &&
      exists j, q :: 0 <= j < |rows| && j in L[..t] && j < x && 0 <= q < |rows[j]|
        && rows[j][q] == x && lf[x] == levs[j][q] + 1 && NoEarlierOffer(rows, levs, levels, L, j, x)
  }

  /** What the walk over the first t list entries has established, with
      `lf` the levels of the active row. */
  ghost predicate ILUWalked(A: Csr, r: seq<int>, ic: seq<int>, levels: int,
                            rows: seq<seq<int>>, levs: seq<seq<int>>, L: seq<int>, lf: seq<int>, t: int)
    requires WellFormed(A) && IsPermutation(r, A.m) && |ic| == A.n && |rows| < A.m && Aligned(rows, levs)
  {
    var PR := PermRow(A, r, ic, |rows|);
    && 0 <= t <= |L|
    && (forall s :: 0 <= s < t ==> L[s] < |rows|)
    && (forall x :: x in PR ==> x in L)
    && (forall x :: x in L ==> 0 <= x < |lf| && (x in PR ==> lf[x] == -1))
    && ILUClosed(rows, levs, levels, L, t)
    && ILUJustified(PR, rows, levs, levels, L, lf, t)
  }

  /** Every stored level of a finished row is at least -1. */
  lemma LevelsAtLeast(A: Csr, r: seq<int>, ic: seq<int>, levels: int,
                      rows: seq<seq<int>>, levs: seq<seq<int>>, row: int)
    requires WellFormed(A) && IsPermutation(r, A.m) && |ic| == A.n && |rows| <= A.m
    requires Aligned(rows, levs) && ILURowsBuilt(A, r, ic, levels, rows, levs) && 0 <= row < |rows|
    ensures forall q :: 0 <= q < |levs[row]| ==> levs[row][q] >= -1
  {
    assert ILURowBuilt(A, r, ic, levels, rows, levs, row);
  }

  lemma StepClosed(rows: seq<seq<int>>, levs: seq<seq<int>>, levels: int,
                   L0: seq<int>, L: seq<int>, t: int, d: int)
    requires Aligned(rows, levs) && ILUClosed(rows, levs, levels, L0, t)
    requires 0 <= t < |L0| && 0 <= L0[t] < |rows| && SplitAt(rows[L0[t]], L0[t], d)
    requires t < |L| && forall s :: 0 <= s <= t ==> L[s] == L0[s]
    requires forall x :: x in L0 ==> x in L
    requires forall q :: d <= q < |rows[L0[t]]| && levs[L0[t]][q] + 1 < levels ==> rows[L0[t]][q] in L
    ensures ILUClosed(rows, levs, levels, L, t + 1)
  {
    var row := L0[t];
    forall s, q | (0 <= s < t + 1 && s < |L| && 0 <= L[s] < |rows| && 0 <= q < |rows[L[s]]|
                   && L[s] <= rows[L[s]][q] && levs[L[s]][q] + 1 < levels)
      ensures rows[L[s]][q] in L
    {
      if s == t {
        assert q >= d;
      } else {
        assert rows[L0[s]][q] in L0;
      }
    }
  }

  lemma StepJustified(PR: seq<int>, rows: seq<seq<int>>, levs: seq<seq<int>>, levels: int,
                      L0: seq<int>, lf0: seq<int>, L: seq<int>, lf: seq<int>, t: int, d: int)
    requires Aligned(rows, levs) && 0 <= t < |L0| && ILUJustified(PR, rows, levs, levels, L0, lf0, t)
    requires Increasing(L0) && ILUClosed(rows, levs, levels, L0, t)
    requires forall s :: 0 <= s <= t ==> 0 <= L0[s] < |rows|
    requires SplitAt(rows[L0[t]], L0[t], d)
    requires forall q :: 0 <= q < |levs[L0[t]]| ==> levs[L0[t]][q] >= -1
    requires t < |L| && forall s :: 0 <= s <= t ==> L[s] == L0[s]
    requires forall x :: x in L0 ==> x in L
    requires forall x :: x in L ==> 0 <= x < |lf|
    requires forall x :: x in L0 && 0 <= x < |lf0| ==> lf[x] == lf0[x]
    requires forall x :: x in L && x !in L0 ==>
               exists q :: d <= q < |rows[L0[t]]| && rows[L0[t]][q] == x
                 && lf[x] == levs[L0[t]][q] + 1 < levels
    ensures ILUJustified(PR, rows, levs, levels, L, lf, t + 1)
  {
    var row := L0[t];
    forall x | x in L && x !in L0
      ensures row < x
    {
      var q :| d <= q < |rows[row]| && rows[row][q] == x && lf[x] == levs[row][q] + 1 < levels;
      assert row in L0;
    }
    forall x | x in L && x !in PR
      ensures 0 <= lf[x] < levels
      ensures exists j, q :: 0 <= j < |rows| && j in L[..t + 1] && j < x && 0 <= q < |rows[j]|
                && rows[j][q] == x && lf[x] == levs[j][q] + 1 && NoEarlierOffer(rows, levs, levels, L, j, x)
    {
      if x in L0 {
        var j, q :| 0 <= j < |rows| && j in L0[..t] && j < x && 0 <= q < |rows[j]|
          && rows[j][q] == x && lf0[x] == levs[j][q] + 1 && NoEarlierOffer(rows, levs, levels, L0, j, x);
        var s :| 0 <= s < t && L0[s] == j;
        assert L[..t + 1][s] == j;
        OfferStaysFirst(rows, levs, levels, L0, L, j, x, row);
      } else {
        var q :| d <= q < |rows[row]| && rows[row][q] == x && lf[x] == levs[row][q] + 1 < levels;
        assert L[..t + 1][t] == row;
        NewOfferFirst(rows, levs, levels, L0, L, t, x);
      }
    }
  }

  /** Entries that join the list lie beyond row j, so a first offer stays first. */
  lemma OfferStaysFirst(rows: seq<seq<int>>, levs: seq<seq<int>>, levels: int,
                        L0: seq<int>, L: seq<int>, j: int, x: int, row: int)
    requires Aligned(rows, levs) && NoEarlierOffer(rows, levs, levels, L0, j, x) && j < row
    requires forall y :: y in L && y !in L0 ==> row < y
    ensures NoEarlierOffer(rows, levs, levels, L, j, x)
  {
  }

  /** A column that was not listed before merging row L0[t] had no offer
      below the threshold from any earlier listed row, which the walk has
      already merged. */
  lemma NewOfferFirst(rows: seq<seq<int>>, levs: seq<seq<int>>, levels: int,
                      L0: seq<int>, L: seq<int>, t: int, x: int)
    requires Aligned(rows, levs) && 0 <= t < |L0| && Increasing(L0) && ILUClosed(rows, levs, levels, L0, t)
    requires forall s :: 0 <= s <= t ==> 0 <= L0[s] < |rows|
    requires forall y :: y in L && y !in L0 ==> L0[t] < y
    requires x !in L0 && L0[t] <= x
    ensures NoEarlierOffer(rows, levs, levels, L, L0[t], x)
  {
    forall h, q | 0 <= h < L0[t] && h < |rows| && h in L && 0 <= q < |rows[h]| && rows[h][q] == x
      ensures levels <= levs[h][q] + 1
    {
      var s :| 0 <= s < |L0| && L0[s] == h;
      assert s < t;
    }
  }

  /** Merging the upper part of row L0[t] extends the walk by one entry. */
  lemma ILUWalkStep(A: Csr, r: seq<int>, ic: seq<int>, levels: int, rows: seq<seq<int>>, levs: seq<seq<int>>,
                    L0: seq<int>, lf0: seq<int>, L: seq<int>, lf: seq<int>, t: int, d: int)
    requires WellFormed(A) && IsPermutation(r, A.m) && |ic| == A.n && |rows| < A.m && Aligned(rows, levs)
    requires ILUWalked(A, r, ic, levels, rows, levs, L0, lf0, t) && t < |L0| && 0 <= L0[t] < |rows|
    requires Increasing(L0) && ILURowsBuilt(A, r, ic, levels, rows, levs)
    requires SplitAt(rows[L0[t]], L0[t], d)
    requires MergedInto(L0, L, lf0, lf, rows[L0[t]][d..], levs[L0[t]][d..], levels, t)
    ensures ILUWalked(A, r, ic, levels, rows, levs, L, lf, t + 1) && L[t] == L0[t]
  {
    var PR := PermRow(A, r, ic, |rows|);
    var row := L0[t];
    var U, UL := rows[row][d..], levs[row][d..];
    forall s | 0 <= s <= t
      ensures L[s] == L0[s]
    {
      assert L[..t + 1][s] == L0[..t + 1][s];
    }
    forall q | d <= q < |rows[row]| && levs[row][q] + 1 < levels
      ensures rows[row][q] in L
    {
      assert U[q - d] == rows[row][q] && UL[q - d] == levs[row][q];
    }
    forall x | x in L && x !in L0
      ensures exists q :: d <= q < |rows[row]| && rows[row][q] == x
                && lf[x] == levs[row][q] + 1 < levels
    {
      var s :| 0 <= s < |U| && U[s] == x && lf[x] == UL[s] + 1 < levels;
      assert rows[row][d + s] == U[s] && levs[row][d + s] == UL[s];
    }
    forall s | 0 <= s <= t
      ensures 0 <= L0[s] < |rows|
    {
      assert L0[s] in L0;
    }
    LevelsAtLeast(A, r, ic, levels, rows, levs, row);
    StepClosed(rows, levs, levels, L0, L, t, d);
    StepJustified(PR, rows, levs, levels, L0, lf0, L, lf, t, d);
  }

  /** A walk that reached the first entry not below i has built row i. */
  lemma ILUWalkDone(A: Csr, r: seq<int>, ic: seq<int>, levels: int, rows: seq<seq<int>>, levs: seq<seq<int>>,
                    L: seq<int>, lf: seq<int>, t: int)
    requires WellFormed(A) && IsPermutation(r, A.m) && |ic| == A.n && |rows| < A.m && Aligned(rows, levs)
    requires ILUWalked(A, r, ic, levels, rows, levs, L, lf, t) && Increasing(L) && ColumnsIn(L, A.n)
    requires |lf| == A.n + 1
    requires t == |L| || L[t] >= |rows|
    ensures Aligned(rows + [L], levs + [LevelsOf(lf, L)])
    ensures ILURowBuilt(A, r, ic, levels, rows + [L], levs + [LevelsOf(lf, L)], |rows|)
  {
    var i := |rows|;
    var PR := PermRow(A, r, ic, i);
    var LV := LevelsOf(lf, L);
    forall j | 0 <= j < i && j in L
      ensures exists s :: 0 <= s < t && L[s] == j
    {
      var s :| 0 <= s < |L| && L[s] == j;
      assert forall u :: 0 <= u < s ==> L[u] < L[s];
    }
    forall p | 0 <= p < |L| && L[p] in PR
      ensures LV[p] == -1
    {
      assert L[p] in L;
    }
    forall p | 0 <= p < |L| && L[p] !in PR
      ensures 0 <= LV[p] < levels
      ensures exists j, q :: 0 <= j < i && j in L && j < L[p] && 0 <= q < |rows[j]|
                && rows[j][q] == L[p] && LV[p] == levs[j][q] + 1 && NoEarlierOffer(rows, levs, levels, L, j, L[p])
    {
      assert L[p] in L;
      var j, q :| 0 <= j < |rows| && j in L[..t] && j < L[p] && 0 <= q < |rows[j]|
        && rows[j][q] == L[p] && lf[L[p]] == levs[j][q] + 1 && NoEarlierOffer(rows, levs, levels, L, j, L[p]);
      assert j in L;
    }
    AppendRowBuilt(A, r, ic, levels, rows, levs, L, LV);
  }

  /** Appending a row whose columns and levels satisfy the row conditions
      gives a built row at that index. */
  lemma AppendRowBuilt(A: Csr, r: seq<int>, ic: seq<int>, levels: int, rows: seq<seq<int>>, levs: seq<seq<int>>,
                       L: seq<int>, LV: seq<int>)
    requires WellFormed(A) && IsPermutation(r, A.m) && |ic| == A.n && |rows| < A.m && Aligned(rows, levs)
    requires Increasing(L) && ColumnsIn(L, A.n) && |LV| == |L|
    requires forall x :: x in PermRow(A, r, ic, |rows|) ==> x in L
    requires forall p :: 0 <= p < |L| && L[p] in PermRow(A, r, ic, |rows|) ==> LV[p] == -1
    requires forall j, q :: (0 <= j < |rows| && j in L && 0 <= q < |rows[j]| && j <= rows[j][q]
                             && levs[j][q] + 1 < levels) ==> rows[j][q] in L
    requires forall p :: 0 <= p < |L| && L[p] !in PermRow(A, r, ic, |rows|) ==>
               0 <= LV[p] < levels &&
               exists j, q :: 0 <= j < |rows| && j in L && j < L[p] && 0 <= q < |rows[j]|
                 && rows[j][q] == L[p] && LV[p] == levs[j][q] + 1 && NoEarlierOffer(rows, levs, levels, L, j, L[p])
    ensures Aligned(rows + [L], levs + [LV])
    ensures ILURowBuilt(A, r, ic, levels, rows + [L], levs + [LV], |rows|)
  {
    var i := |rows|;
    var rows', levs' := rows + [L], levs + [LV];
    assert rows'[i] == L && levs'[i] == LV;
    assert forall j :: 0 <= j < i ==> rows'[j] == rows[j] && levs'[j] == levs[j];
    forall j, x | 0 <= j < i && NoEarlierOffer(rows, levs, levels, L, j, x)
      ensures NoEarlierOffer(rows', levs', levels, L, j, x)
    {
    }
  }

  // ---------------------------------------------------------------------
  // Layout of columns and levels.

  /** Columns laid out as in the exact factorization, and the levels laid
      out the same way in `af`. */
  ghost predicate ILULaidOut(rows: seq<seq<int>>, levs: seq<seq<int>>,
                             ai: seq<int>, aj: seq<int>, af: seq<int>, id: seq<int>)
  {
    && LaidOut(rows, ai, aj, id)
    && Aligned(rows, levs)
    && ai[|rows|] - 1 <= |af| && af[..ai[|rows|] - 1] == Flat(levs, 0)
  }

  lemma {:induction false} OffAligned(rows: seq<seq<int>>, levs: seq<seq<int>>, k: int)
    requires Aligned(rows, levs) && 0 <= k <= |rows|
    ensures Off(levs, k) == Off(rows, k)
  {
    if k > 0 {
      OffAligned(rows, levs, k - 1);
      OffStep(rows, k - 1);
      OffStep(levs, k - 1);
    }
  }

  /** Where the columns and the levels of the upper part of an earlier row lie. */
  lemma LevelsUpperOf(rows: seq<seq<int>>, levs: seq<seq<int>>,
                      ai: seq<int>, aj: seq<int>, af: seq<int>, id: seq<int>, row: int, lo: int, hi: int, d: int)
    requires ILULaidOut(rows, levs, ai, aj, af, id) && 0 <= row < |rows|
    requires lo == id[row] - 1 && hi == ai[row + 1] - 1 && d == id[row] - ai[row]
    ensures SplitAt(rows[row], row, d) && 0 <= d <= |levs[row]|
    ensures 0 <= lo <= hi <= |aj| && hi <= |af|
    ensures aj[lo..hi] == Shift(rows[row][d..], 1)
    ensures af[lo..hi] == levs[row][d..]
  {
    UpperOf(rows, ai, aj, id, row, lo, hi, d);
    OffAligned(rows, levs, row);
    OffAligned(rows, levs, row + 1);
    OffAligned(rows, levs, |rows|);
    FlatRow(levs, 0, row);
    OffMono(levs, row + 1, |levs|);
    var flo, fhi := Off(levs, row), Off(levs, row + 1);
    PrefixSlice(af, Flat(levs, 0), flo + d, fhi);
    ShiftDrop(levs[row], d, 0);
    ShiftZero(levs[row][d..]);
  }

  lemma ShiftZero(s: seq<int>)
    ensures Shift(s, 0) == s
  {
  }

  /** Writing the next row and its levels keeps the layout. */
  lemma ILULaidOutAppend(rows: seq<seq<int>>, levs: seq<seq<int>>,
                         ai: seq<int>, aj: seq<int>, af: seq<int>, id: seq<int>,
                         L: seq<int>, LV: seq<int>, nzi: int,
                         ai': seq<int>, aj': seq<int>, af': seq<int>, id': seq<int>)
    requires ILULaidOut(rows, levs, ai, aj, af, id) && |rows| + 1 < |ai| && |rows| < |id|
    requires SplitAt(L, |rows|, nzi) && |LV| == |L|
    requires ai' == ai[|rows| + 1 := ai[|rows|] + |L|]
    requires id' == id[|rows| := ai[|rows|] + nzi]
    requires ai[|rows|] - 1 + |L| <= |aj'| && ai[|rows|] - 1 + |L| <= |af'|
    requires aj'[..ai[|rows|] - 1] == aj[..ai[|rows|] - 1]
    requires aj'[ai[|rows|] - 1 .. ai[|rows|] - 1 + |L|] == Shift(L, 1)
    requires af'[..ai[|rows|] - 1] == af[..ai[|rows|] - 1]
    requires af'[ai[|rows|] - 1 .. ai[|rows|] - 1 + |L|] == LV
    ensures ILULaidOut(rows + [L], levs + [LV], ai', aj', af', id')
  {
    var i := |rows|;
    LaidOutAppend(rows, ai, aj, id, L, nzi, ai', aj', id');
    AppendLevels(levs, af, LV, af', ai[i] - 1, ai[i] - 1 + |L|);
    AlignedAppend(rows, levs, L, LV);
  }

  /** The level array after the next row's levels are written behind the
      flattened earlier ones. */
  lemma AppendLevels(levs: seq<seq<int>>, af: seq<int>, LV: seq<int>, af': seq<int>, b: int, e: int)
    requires 0 <= b <= |af| && af[..b] == Flat(levs, 0) && e == b + |LV|
    requires e <= |af'| && af'[..b] == af[..b] && af'[b..e] == LV
    ensures af'[..e] == Flat(levs + [LV], 0)
  {
    FlatAppend(levs, LV, 0);
    ShiftZero(LV);
    PrefixExtend(af', Flat(levs, 0), LV);
  }

  lemma AlignedAppend(rows: seq<seq<int>>, levs: seq<seq<int>>, L: seq<int>, LV: seq<int>)
    requires Aligned(rows, levs) && |LV| == |L|
    ensures Aligned(rows + [L], levs + [LV])
  {
    assert forall k :: 0 <= k < |rows| ==> (rows + [L])[k] == rows[k] && (levs + [LV])[k] == levs[k];
  }

  // ---------------------------------------------------------------------
  // One row and the factorization.

  method ILUBuildRow(fill: array<int>, lfill: array<int>, A: Csr, r: seq<int>, ic: seq<int>, levels: int, i: int,
                     ainew: array<int>, ajnew: array<int>, ajfill: array<int>, idnew: array<int>,
                     ghost rows: seq<seq<int>>, ghost levs: seq<seq<int>>)
      returns (nnz: int, ghost L: seq<int>)
    requires WellFormed(A) && NoDuplicateColumns(A) && A.m == A.n
    requires IsPermutation(r, A.n) && IsPermutation(ic, A.n)
    requires fill.Length == A.n + 1 && lfill.Length == A.n + 1 && 0 <= i < A.n && |rows| == i
    requires fill != lfill && ajnew != fill && ajnew != lfill && ajfill != fill && ajfill != lfill
    requires ainew != fill && ainew != lfill && idnew != fill && idnew != lfill
    requires ILULaidOut(rows, levs, ainew[..], ajnew[..], ajfill[..], idnew[..])
    requires ILURowsBuilt(A, r, ic, levels, rows, levs)
    modifies fill, lfill
    ensures IsList(fill[..], A.n, L) && nnz == |L|
    ensures Aligned(rows + [L], levs + [LevelsOf(lfill[..], L)])
    ensures ILURowBuilt(A, r, ic, levels, rows + [L], levs + [LevelsOf(lfill[..], L)], i)
  {
    var n := A.n;
    nnz, L := ILULoadRow(fill, lfill, A, r, ic, i);
    var row := fill[n];
    ghost var t: nat := 0;
    while row < i
      invariant IsList(fill[..], n, L) && nnz == |L| && t <= |L| && row == Succ(L, n, t)
      invariant ILUWalked(A, r, ic, levels, rows, levs, L, lfill[..], t)
      decreases n - row
    {
      assert t < |L| && L[t] == row;
      nnz, L := ILUMergeRow(fill, lfill, A, r, ic, levels, i, ainew, ajnew, ajfill, idnew, rows, levs, L, t, row, nnz);
      row := fill[row];
      t := t + 1;
    }
    ILUWalkDone(A, r, ic, levels, rows, levs, L, lfill[..], t);
  }

  /** One step of the walk: merges the upper part of row L0[t] < i. */
  method ILUMergeRow(fill: array<int>, lfill: array<int>, A: Csr, r: seq<int>, ic: seq<int>, levels: int, i: int,
                     ainew: array<int>, ajnew: array<int>, ajfill: array<int>, idnew: array<int>,
                     ghost rows: seq<seq<int>>, ghost levs: seq<seq<int>>, ghost L0: seq<int>, ghost t: nat,
                     row: int, nnz0: int)
      returns (nnz: int, ghost L: seq<int>)
    requires WellFormed(A) && A.m == A.n
    requires IsPermutation(r, A.n) && IsPermutation(ic, A.n)
    requires fill.Length == A.n + 1 && lfill.Length == A.n + 1 && 0 <= i < A.n && |rows| == i
    requires fill != lfill && ajnew != fill && ajnew != lfill && ajfill != fill && ajfill != lfill
    requires ainew != fill && ainew != lfill && idnew != fill && idnew != lfill
    requires ILULaidOut(rows, levs, ainew[..], ajnew[..], ajfill[..], idnew[..])
    requires ILURowsBuilt(A, r, ic, levels, rows, levs)
    requires IsList(fill[..], A.n, L0) && nnz0 == |L0| && t < |L0| && row == L0[t] && 0 <= row < i
    requires ILUWalked(A, r, ic, levels, rows, levs, L0, lfill[..], t)
    modifies fill, lfill
    ensures IsList(fill[..], A.n, L) && nnz == |L| && t < |L| && L[t] == row
    ensures ILUWalked(A, r, ic, levels, rows, levs, L, lfill[..], t + 1)
  {
    var lo := idnew[row] - 1;
    var hi := ainew[row + 1] - 1;
    ghost var d := idnew[row] - ainew[row];
    UpperSlices(A, r, ic, levels, rows, levs, ainew, ajnew, ajfill, idnew, row, lo, hi, d);
    ghost var lf0 := lfill[..];
    nnz, L := ILUMergeUpper(fill, lfill, A.n, levels, L0, t, nnz0, ajnew, ajfill, lo, hi,
                            rows[row][d..], levs[row][d..]);
    assert Increasing(L0);
    ILUWalkStep(A, r, ic, levels, rows, levs, L0, lf0, L, lfill[..], t, d);
  }

  /** The upper part of a finished row, its columns (in row..n-1) and its
      levels, as the merge reads them. */
  lemma UpperSlices(A: Csr, r: seq<int>, ic: seq<int>, levels: int,
                    rows: seq<seq<int>>, levs: seq<seq<int>>,
                    ai: array<int>, aj: array<int>, af: array<int>, id: array<int>,
                    row: int, lo: int, hi: int, d: int)
    requires WellFormed(A) && IsPermutation(r, A.m) && |ic| == A.n && |rows| <= A.m
    requires ILULaidOut(rows, levs, ai[..], aj[..], af[..], id[..]) && ILURowsBuilt(A, r, ic, levels, rows, levs)
    requires 0 <= row < |rows| && row + 1 < ai.Length && row < id.Length
    requires lo == id[row] - 1 && hi == ai[row + 1] - 1 && d == id[row] - ai[row]
    ensures SplitAt(rows[row], row, d) && d <= |levs[row]|
    ensures 0 <= lo <= hi <= aj.Length && hi <= af.Length
    ensures aj[lo..hi] == Shift(rows[row][d..], 1) && af[lo..hi] == levs[row][d..]
    ensures forall s :: 0 <= s < |rows[row][d..]| ==> row <= rows[row][d..][s] < A.n
  {
    ghost var AI, AJ, AF, ID := ai[..], aj[..], af[..], id[..];
    assert AI[row] == ai[row] && AI[row + 1] == ai[row + 1] && ID[row] == id[row];
    UpperSlicesOf(A, r, ic, levels, rows, levs, AI, AJ, AF, ID, row, lo, hi, d);
    assert aj[lo..hi] == AJ[lo..hi];
    assert af[lo..hi] == AF[lo..hi];
  }

  /** UpperSlices, over the arrays' contents. */
  lemma UpperSlicesOf(A: Csr, r: seq<int>, ic: seq<int>, levels: int,
                      rows: seq<seq<int>>, levs: seq<seq<int>>,
                      ai: seq<int>, aj: seq<int>, af: seq<int>, id: seq<int>,
                      row: int, lo: int, hi: int, d: int)
    requires WellFormed(A) && IsPermutation(r, A.m) && |ic| == A.n && |rows| <= A.m
    requires ILULaidOut(rows, levs, ai, aj, af, id) && ILURowsBuilt(A, r, ic, levels, rows, levs)
    requires 0 <= row < |rows| && row + 1 < |ai| && row < |id|
    requires lo == id[row] - 1 && hi == ai[row + 1] - 1 && d == id[row] - ai[row]
    ensures SplitAt(rows[row], row, d) && d <= |levs[row]|
    ensures 0 <= lo <= hi <= |aj| && hi <= |af|
    ensures aj[lo..hi] == Shift(rows[row][d..], 1) && af[lo..hi] == levs[row][d..]
    ensures forall s :: 0 <= s < |rows[row][d..]| ==> row <= rows[row][d..][s] < A.n
  {
    LevelsUpperOf(rows, levs, ai, aj, af, id, row, lo, hi, d);
    assert ILURowBuilt(A, r, ic, levels, rows, levs, row);
  }

  /** Sets the next row pointer, grows the column and level arrays together
      when the row does not fit, copies the row and its levels in and sets
      its diagonal pointer. */
  method ILUStoreRow(fill: array<int>, lfill: array<int>, n: int, ghost L: seq<int>, nnz: int,
                     ainew: array<int>, ajold: array<int>, afold: array<int>, idnew: array<int>, i: int, jmax0: int,
                     ghost rows: seq<seq<int>>, ghost levs: seq<seq<int>>)
      returns (ajnew: array<int>, ajfill: array<int>, jmax: int)
    requires IsList(fill[..], n, L) && nnz == |L| && lfill.Length == n + 1
    requires ajold != fill && ajold != lfill && ajold != ainew && ajold != idnew
    requires afold != fill && afold != lfill && afold != ainew && afold != idnew && afold != ajold
    requires ainew != fill && ainew != lfill && idnew != fill && idnew != lfill && ainew != idnew
    requires |rows| == i < n && ainew.Length == n + 1 && idnew.Length == n + 1
    requires jmax0 == ajold.Length == afold.Length
    requires ILULaidOut(rows, levs, ainew[..], ajold[..], afold[..], idnew[..])
    modifies ainew, idnew, ajold, afold
    ensures ajnew == ajold || fresh(ajnew)
    ensures ajfill == afold || fresh(ajfill)
    ensures ajnew != fill && ajnew != lfill && ajnew != ainew && ajnew != idnew
    ensures ajfill != fill && ajfill != lfill && ajfill != ainew && ajfill != idnew && ajfill != ajnew
    ensures jmax == ajnew.Length == ajfill.Length
    ensures ILULaidOut(rows + [L], levs + [LevelsOf(lfill[..], L)], ainew[..], ajnew[..], ajfill[..], idnew[..])
  {
    ghost var ai0, aj0, af0, id0 := ainew[..], ajold[..], afold[..], idnew[..];
    var start := ainew[i] - 1;
    ainew[i + 1] := ainew[i] + nnz;
    ajnew, ajfill, jmax := ILUReserve(ajold, afold, ainew[i + 1], start, nnz, jmax0, n, i);
    var nzi := ILUWriteRow(fill, lfill, n, L, nnz, ajnew, ajfill, start, i);
    idnew[i] := ainew[i] + nzi;
    assert ainew[..] == ai0[i + 1 := ai0[i] + nnz];
    assert idnew[..] == id0[i := ai0[i] + nzi];
    ILULaidOutAppend(rows, levs, ai0, aj0, af0, id0, L, LevelsOf(lfill[..], L), nzi,
                     ainew[..], ajnew[..], ajfill[..], idnew[..]);
  }

  /** When the row does not fit (`ainew[i+1] > jmax+1`), the column and
      level arrays are both reallocated with the grown capacity, keeping
      the written prefix; otherwise they stay. */
  method ILUReserve(ajold: array<int>, afold: array<int>, next: int, start: int, nnz: int,
                    jmax0: int, n: int, i: int)
      returns (ajnew: array<int>, ajfill: array<int>, jmax: int)
    requires 0 <= i < n && 0 <= nnz && 0 <= start <= jmax0 && next == start + 1 + nnz
    requires jmax0 == ajold.Length == afold.Length && ajold != afold
    ensures next > jmax0 + 1 ==> fresh(ajnew) && fresh(ajfill) && jmax == GrowCapacity(jmax0, start, nnz, n, i)
    ensures next <= jmax0 + 1 ==> ajnew == ajold && ajfill == afold && jmax == jmax0
    ensures ajnew != ajfill && jmax == ajnew.Length == ajfill.Length && start + nnz <= jmax
    ensures ajnew[..start] == ajold[..start] && ajfill[..start] == afold[..start]
  {
    ajnew, ajfill, jmax := ajold, afold, jmax0;
    if next > jmax + 1 {
      jmax := GrowCapacity(jmax, start, nnz, n, i);
      ajnew := Grow(ajold, start, jmax);
      ajfill := Grow(afold, start, jmax);
    }
  }

  /** Row i of the ILU factorization: build it, then store it. */
  method ILUFactorRow(fill: array<int>, lfill: array<int>, A: Csr, r: seq<int>, ic: seq<int>, levels: int, i: int,
                      ainew: array<int>, ajold: array<int>, afold: array<int>, idnew: array<int>, jmax0: int,
                      ghost rows: seq<seq<int>>, ghost levs: seq<seq<int>>)
      returns (ajnew: array<int>, ajfill: array<int>, jmax: int, ghost L: seq<int>, ghost LV: seq<int>)
    requires WellFormed(A) && NoDuplicateColumns(A) && A.m == A.n
    requires IsPermutation(r, A.n) && IsPermutation(ic, A.n)
    requires fill.Length == A.n + 1 && lfill.Length == A.n + 1 && 0 <= i < A.n && |rows| == i
    requires ajold != fill && ajold != lfill && ajold != ainew && ajold != idnew
    requires afold != fill && afold != lfill && afold != ainew && afold != idnew && afold != ajold
    requires ainew != fill && ainew != lfill && idnew != fill && idnew != lfill && ainew != idnew && fill != lfill
    requires ainew.Length == A.n + 1 && idnew.Length == A.n + 1 && jmax0 == ajold.Length == afold.Length
    requires ILULaidOut(rows, levs, ainew[..], ajold[..], afold[..], idnew[..])
    requires ILURowsBuilt(A, r, ic, levels, rows, levs)
    modifies fill, lfill, ainew, idnew, ajold, afold
    ensures ajnew == ajold || fresh(ajnew)
    ensures ajfill == afold || fresh(ajfill)
    ensures ajnew != fill && ajnew != lfill && ajnew != ainew && ajnew != idnew
    ensures ajfill != fill && ajfill != lfill && ajfill != ainew && ajfill != idnew && ajfill != ajnew
    ensures jmax == ajnew.Length == ajfill.Length
    ensures ILULaidOut(rows + [L], levs + [LV], ainew[..], ajnew[..], ajfill[..], idnew[..])
    ensures ILURowsBuilt(A, r, ic, levels, rows + [L], levs + [LV])
  {
    var nnz;
    nnz, L := ILUBuildRow(fill, lfill, A, r, ic, levels, i, ainew, ajold, afold, idnew, rows, levs);
    LV := LevelsOf(lfill[..], L);
    ILURowsBuiltAppend(A, r, ic, levels, rows, levs, L, LV);
    ajnew, ajfill, jmax := ILUStoreRow(fill, lfill, A.n, L, nnz, ainew, ajold, afold, idnew, i, jmax0, rows, levs);
  }

  /** MatILUFactorSymbolic_AIJ. Fails on a non-square matrix or a missing
      permutation; otherwise returns the ILU(levels) pattern. The levels
      array is freed before returning, so the levels are a ghost result. */
  method ILUFactorSymbolic(A: Csr, isrow: Option<seq<int>>, iscol: Option<seq<int>>, levels: int)
      returns (res: Result<Pattern>, ghost levs: seq<seq<int>>)
    requires WellFormed(A) && NoDuplicateColumns(A)
    requires A.m == A.n && isrow.Some? && iscol.Some? ==>
               IsPermutation(isrow.value, A.m) && IsPermutation(iscol.value, A.m)
    ensures A.m != A.n ==> res == Err(NotSquare)
    ensures A.m == A.n && isrow.None? ==> res == Err(MissingRowPermutation)
    ensures A.m == A.n && isrow.Some? && iscol.None? ==> res == Err(MissingColumnPermutation)
    ensures A.m == A.n && isrow.Some? && iscol.Some? ==>
              res.Ok? && IsILUPattern(A, isrow.value, Inverse(iscol.value), levels, res.value, levs)
  {
    levs := [];
    if A.m != A.n {
      return Err(NotSquare), levs;
    }
    if isrow.None? {
      return Err(MissingRowPermutation), levs;
    }
    if iscol.None? {
      return Err(MissingColumnPermutation), levs;
    }
    var ic := InvertPermutation(iscol.value);
    InverseIsPermutation(iscol.value);
    var P;
    P, levs := ILUSymbolicRows(A, isrow.value, ic, levels);
    return Ok(P), levs;
  }

  /** The row loop of MatILUFactorSymbolic_AIJ, once the checks have passed
      and the column permutation is inverted. */
  method ILUSymbolicRows(A: Csr, r: seq<int>, ic: seq<int>, levels: int)
      returns (P: Pattern, ghost levs: seq<seq<int>>)
    requires WellFormed(A) && NoDuplicateColumns(A) && A.m == A.n
    requires IsPermutation(r, A.n) && IsPermutation(ic, A.n)
    ensures IsILUPattern(A, r, ic, levels, P, levs)
  {
    levs := [];
    var n := A.n;
    var ainew := new int[n + 1];
    ainew[0] := 1;
    var jmax := 2 * A.ai[n];
    var ajnew := new int[jmax];
    var ajfill := new int[jmax];
    var fill := new int[n + 1];
    var lfill := new int[n + 1];
    var idnew := new int[n + 1];
    idnew[0] := 1;
    ghost var rows: seq<seq<int>> := [];
    assert Off(rows, 0) == 0;

    for i := 0 to n
      invariant |rows| == i
      invariant fresh(ajnew) && ajnew != fill && ajnew != lfill && ajnew != ainew && ajnew != idnew
      invariant fresh(ajfill) && ajfill != fill && ajfill != lfill && ajfill != ainew && ajfill != idnew
      invariant ajfill != ajnew
      invariant jmax == ajnew.Length == ajfill.Length
      invariant ILULaidOut(rows, levs, ainew[..], ajnew[..], ajfill[..], idnew[..])
      invariant ILURowsBuilt(A, r, ic, levels, rows, levs)
    {
      ghost var L, LV;
      ajnew, ajfill, jmax, L, LV := ILUFactorRow(fill, lfill, A, r, ic, levels, i,
                                                 ainew, ajnew, ajfill, idnew, jmax, rows, levs);
      rows, levs := rows + [L], levs + [LV];
    }

    ILUPatternOf(A, r, ic, levels, rows, levs, ainew[..], ajnew[..], ajfill[..], idnew[..]);
    P := Pattern(n, ainew[..], ajnew[..ainew[n] - 1], idnew[..n]);
  }

  /** The finished arrays hold the ILU pattern. */
  lemma ILUPatternOf(A: Csr, r: seq<int>, ic: seq<int>, levels: int, rows: seq<seq<int>>, levs: seq<seq<int>>,
                     ai: seq<int>, aj: seq<int>, af: seq<int>, id: seq<int>)
    requires WellFormed(A) && A.m == A.n && IsPermutation(r, A.n) && |ic| == A.n
    requires |rows| == A.n && |ai| == A.n + 1
    requires ILULaidOut(rows, levs, ai, aj, af, id) && ILURowsBuilt(A, r, ic, levels, rows, levs)
    ensures IsILUPattern(A, r, ic, levels, Pattern(A.n, ai, aj[..ai[A.n] - 1], id[..A.n]), levs)
  {
    LaidOutPattern(rows, ai, aj, id);
  }

  // ---------------------------------------------------------------------
  // The ILU pattern is determined by A, the permutations and `levels`.

  /** Two increasing sequences with the same members are equal. */
  lemma {:induction false} IncreasingSameMembers(s: seq<int>, u: seq<int>)
    requires Increasing(s) && Increasing(u)
    requires forall x :: x in s <==> x in u
    ensures s == u
  {
    if s != [] {
      assert s[0] in s && s[0] in u;
    }
    if u != [] {
      assert u[0] in u && u[0] in s;
    }
    if s != [] && u != [] {
      var i :| 0 <= i < |u| && u[i] == s[0];
      var j :| 0 <= j < |s| && s[j] == u[0];
      assert s[0] <= s[j] && u[0] <= u[i];
      forall x
        ensures x in s[1..] <==> x in u[1..]
      {
        TailMembers(s, x);
        TailMembers(u, x);
      }
      IncreasingSameMembers(s[1..], u[1..]);
      assert s == [s[0]] + s[1..] && u == [u[0]] + u[1..];
    }
  }

  /** The tail of an increasing sequence holds its members but the first. */
  lemma TailMembers(s: seq<int>, x: int)
    requires Increasing(s) && s != []
    ensures x in s[1..] <==> x in s && x != s[0]
  {
    if x in s && x != s[0] {
      var p :| 0 <= p < |s| && s[p] == x;
      assert s[1..][p - 1] == x;
    }
  }

  /** With the same earlier rows, a column y of row k of one factor whose
      smaller columns both factors share is a column of the other's row k:
      either it is original, or its first parent offers it in both. */
  lemma RowMemberTransfers(A: Csr, r: seq<int>, ic: seq<int>, levels: int,
                           rows1: seq<seq<int>>, levs1: seq<seq<int>>,
                           rows2: seq<seq<int>>, levs2: seq<seq<int>>, k: int, y: int)
    requires WellFormed(A) && IsPermutation(r, A.m) && |ic| == A.n
    requires Aligned(rows1, levs1) && Aligned(rows2, levs2)
    requires 0 <= k < |rows1| && k < |rows2| && k < A.m
    requires forall j :: 0 <= j < k ==> rows1[j] == rows2[j] && levs1[j] == levs2[j]
    requires ILURowBuilt(A, r, ic, levels, rows1, levs1, k) && ILURowBuilt(A, r, ic, levels, rows2, levs2, k)
    requires forall z :: 0 <= z < y ==> (z in rows1[k] <==> z in rows2[k])
    requires y in rows1[k]
    ensures y in rows2[k]
  {
    if y !in PermRow(A, r, ic, k) {
      var p :| 0 <= p < |rows1[k]| && rows1[k][p] == y;
      var j, q :| 0 <= j < k && j in rows1[k] && j < y && 0 <= q < |rows1[j]|
        && rows1[j][q] == y && levs1[k][p] == levs1[j][q] + 1
        && NoEarlierOffer(rows1, levs1, levels, rows1[k], j, y);
      assert j in rows2[k];
      assert rows2[j][q] == y && levs2[j][q] + 1 < levels;
    }
  }

  /** Row k of two factors with the same earlier rows holds the same columns. */
  lemma {:induction false} RowMembersAgree(A: Csr, r: seq<int>, ic: seq<int>, levels: int,
                                           rows1: seq<seq<int>>, levs1: seq<seq<int>>,
                                           rows2: seq<seq<int>>, levs2: seq<seq<int>>, k: int, y: int)
    requires WellFormed(A) && IsPermutation(r, A.m) && |ic| == A.n
    requires Aligned(rows1, levs1) && Aligned(rows2, levs2)
    requires 0 <= k < |rows1| && k < |rows2| && k < A.m
    requires forall j :: 0 <= j < k ==> rows1[j] == rows2[j] && levs1[j] == levs2[j]
    requires ILURowBuilt(A, r, ic, levels, rows1, levs1, k) && ILURowBuilt(A, r, ic, levels, rows2, levs2, k)
    requires 0 <= y
    ensures forall z :: 0 <= z <= y ==> (z in rows1[k] <==> z in rows2[k])
    decreases y
  {
    if y > 0 {
      RowMembersAgree(A, r, ic, levels, rows1, levs1, rows2, levs2, k, y - 1);
    }
    if y in rows1[k] {
      RowMemberTransfers(A, r, ic, levels, rows1, levs1, rows2, levs2, k, y);
    }
    if y in rows2[k] {
      RowMemberTransfers(A, r, ic, levels, rows2, levs2, rows1, levs1, k, y);
    }
  }

  /** With the same earlier rows and the same columns in row k, the two
      factors give every entry of row k the same level: an original entry
      has level -1, and a fill entry the level from its first parent, which
      is the same row in both. */
  lemma RowLevelAgrees(A: Csr, r: seq<int>, ic: seq<int>, levels: int,
                       rows1: seq<seq<int>>, levs1: seq<seq<int>>,
                       rows2: seq<seq<int>>, levs2: seq<seq<int>>, k: int, p: int)
    requires WellFormed(A) && IsPermutation(r, A.m) && |ic| == A.n
    requires Aligned(rows1, levs1) && Aligned(rows2, levs2)
    requires 0 <= k < |rows1| && k < |rows2| && k < A.m
    requires forall j :: 0 <= j < k ==> rows1[j] == rows2[j] && levs1[j] == levs2[j] && Increasing(rows1[j])
    requires ILURowBuilt(A, r, ic, levels, rows1, levs1, k) && ILURowBuilt(A, r, ic, levels, rows2, levs2, k)
    requires rows1[k] == rows2[k] && 0 <= p < |rows1[k]|
    ensures levs1[k][p] == levs2[k][p]
  {
    var x := rows1[k][p];
    if x !in PermRow(A, r, ic, k) {
      var j1, q1 := FirstParent(A, r, ic, levels, rows1, levs1, k, p);
      var j2, q2 := FirstParent(A, r, ic, levels, rows2, levs2, k, p);
      assert rows2[j1][q1] == x && levs2[j1][q1] + 1 < levels;
      assert rows1[j2][q2] == x && levs1[j2][q2] + 1 < levels;
      assert j1 == j2;
      assert q1 == q2 by {
        assert Increasing(rows1[j1]);
      }
    }
  }

  /** The first parent of a fill entry of a built row. */
  lemma FirstParent(A: Csr, r: seq<int>, ic: seq<int>, levels: int,
                    rows: seq<seq<int>>, levs: seq<seq<int>>, k: int, p: int)
      returns (j: int, q: int)
    requires WellFormed(A) && IsPermutation(r, A.m) && |ic| == A.n
    requires Aligned(rows, levs) && 0 <= k < |rows| && k < A.m
    requires ILURowBuilt(A, r, ic, levels, rows, levs, k)
    requires 0 <= p < |rows[k]| && rows[k][p] !in PermRow(A, r, ic, k)
    ensures 0 <= j < k && j in rows[k] && j < rows[k][p] && 0 <= q < |rows[j]|
    ensures rows[j][q] == rows[k][p] && levs[k][p] == levs[j][q] + 1 < levels
    ensures NoEarlierOffer(rows, levs, levels, rows[k], j, rows[k][p])
  {
    j, q :| 0 <= j < k && j in rows[k] && j < rows[k][p] && 0 <= q < |rows[j]|
      && rows[j][q] == rows[k][p] && levs[k][p] == levs[j][q] + 1
      && NoEarlierOffer(rows, levs, levels, rows[k], j, rows[k][p]);
  }

  /** Rows built under the same A, permutations and threshold agree, row
      by row, with their levels. */
  lemma {:induction false} ILURowsAgree(A: Csr, r: seq<int>, ic: seq<int>, levels: int,
                                        rows1: seq<seq<int>>, levs1: seq<seq<int>>,
                                        rows2: seq<seq<int>>, levs2: seq<seq<int>>, k: int)
    requires WellFormed(A) && IsPermutation(r, A.m) && |ic| == A.n
    requires Aligned(rows1, levs1) && Aligned(rows2, levs2) && |rows1| == |rows2| <= A.m
    requires ILURowsBuilt(A, r, ic, levels, rows1, levs1) && ILURowsBuilt(A, r, ic, levels, rows2, levs2)
    requires 0 <= k <= |rows1|
    ensures forall j :: 0 <= j < k ==> rows1[j] == rows2[j] && levs1[j] == levs2[j]
    decreases k
  {
    if k > 0 {
      var i := k - 1;
      ILURowsAgree(A, r, ic, levels, rows1, levs1, rows2, levs2, i);
      assert ILURowBuilt(A, r, ic, levels, rows1, levs1, i);
      assert ILURowBuilt(A, r, ic, levels, rows2, levs2, i);
      forall j | 0 <= j < i
        ensures Increasing(rows1[j])
      {
        assert ILURowBuilt(A, r, ic, levels, rows1, levs1, j);
      }
      RowMembersAgree(A, r, ic, levels, rows1, levs1, rows2, levs2, i, A.n);
      forall x
        ensures x in rows1[i] <==> x in rows2[i]
      {
        if x in rows1[i] || x in rows2[i] {
          assert 0 <= x < A.n;
        }
      }
      IncreasingSameMembers(rows1[i], rows2[i]);
      forall p | 0 <= p < |rows1[i]|
        ensures levs1[i][p] == levs2[i][p]
      {
        RowLevelAgrees(A, r, ic, levels, rows1, levs1, rows2, levs2, i, p);
      }
    }
  }

  /** MatILUFactorSymbolic_AIJ has exactly one possible result: two
      patterns (with levels) that both meet the ILU conditions for the same
      A, permutations and threshold are equal. */
  lemma ILUPatternUnique(A: Csr, r: seq<int>, ic: seq<int>, levels: int,
                         P1: Pattern, levs1: seq<seq<int>>, P2: Pattern, levs2: seq<seq<int>>)
    requires WellFormed(A) && IsPermutation(r, A.m) && |ic| == A.n
    requires IsILUPattern(A, r, ic, levels, P1, levs1) && IsILUPattern(A, r, ic, levels, P2, levs2)
    ensures P1 == P2 && levs1 == levs2
  {
    var n := A.n;
    var rows1 := seq(n, k => if 0 <= k < P1.n then RowOf(P1, k) else []);
    var rows2 := seq(n, k => if 0 <= k < P2.n then RowOf(P2, k) else []);
    ILURowsAgree(A, r, ic, levels, rows1, levs1, rows2, levs2, n);
    assert levs1 == levs2;
    forall k | 0 <= k < n
      ensures RowOf(P1, k) == RowOf(P2, k) && P1.diag[k] - P1.ai[k] == P2.diag[k] - P2.ai[k]
    {
      assert rows1[k] == rows2[k];
      SplitUnique(RowOf(P1, k), k, P1.diag[k] - P1.ai[k], P2.diag[k] - P2.ai[k]);
    }
    SameRowsSameLayout(P1, P2, n);
    assert P1.ai == P2.ai;
    assert P1.diag == P2.diag;
    assert P1.aj == P1.aj[..P1.ai[n] - 1] && P2.aj == P2.aj[..P2.ai[n] - 1];
    assert P1.aj == P2.aj;
    assert P1.n == P2.n;
  }

  /** Where a row splits at column k is fixed by the row. */
  lemma SplitUnique(s: seq<int>, k: int, d1: int, d2: int)
    requires SplitAt(s, k, d1) && SplitAt(s, k, d2)
    ensures d1 == d2
  {
    assert d1 < |s| ==> s[d1] >= k;
    assert d2 < |s| ==> s[d2] >= k;
  }

  /** A row both patterns share and start at the same place occupies the
      same stored columns. */
  lemma SameRowSameSlice(P1: Pattern, P2: Pattern, i: int, lo: int, hi1: int, hi2: int)
    requires Shaped(P1) && Shaped(P2) && P1.n == P2.n && 0 <= i < P1.n
    requires RowOf(P1, i) == RowOf(P2, i)
    requires lo == P1.ai[i] - 1 == P2.ai[i] - 1 && hi1 == P1.ai[i + 1] - 1 && hi2 == P2.ai[i + 1] - 1
    requires 0 <= lo <= hi1 <= |P1.aj| && lo <= hi2 <= |P2.aj|
    ensures hi1 == hi2 && P1.aj[lo..hi1] == P2.aj[lo..hi2]
  {
    var R := RowOf(P1, i);
    assert |R| == hi1 - lo == hi2 - lo;
    forall t | 0 <= t < hi1 - lo
      ensures P1.aj[lo..hi1][t] == P2.aj[lo..hi2][t]
    {
      assert R[t] == P1.aj[lo + t] - 1 == P2.aj[lo + t] - 1;
    }
  }

  /** Two shaped patterns with the same rows 0..k-1 have the same first
      k + 1 row pointers and the same columns up to row k. */
  lemma {:induction false} SameRowsSameLayout(P1: Pattern, P2: Pattern, k: int)
    requires Shaped(P1) && Shaped(P2) && P1.n == P2.n && 0 <= k <= P1.n
    requires forall j :: 0 <= j < P1.n ==> RowOf(P1, j) == RowOf(P2, j)
    ensures forall j :: 0 <= j <= k ==> P1.ai[j] == P2.ai[j]
    ensures P1.aj[..P1.ai[k] - 1] == P2.aj[..P2.ai[k] - 1]
    decreases k
  {
    if k > 0 {
      var i := k - 1;
      SameRowsSameLayout(P1, P2, i);
      PatternPointersLe(P1, i, k);
      PatternPointersLe(P2, i, k);
      PatternPointersLe(P1, k, P1.n);
      PatternPointersLe(P2, k, P2.n);
      var lo, hi1, hi2 := P1.ai[i] - 1, P1.ai[k] - 1, P2.ai[k] - 1;
      SameRowSameSlice(P1, P2, i, lo, hi1, hi2);
      assert P1.aj[..hi1] == P1.aj[..lo] + P1.aj[lo..hi1];
      assert P2.aj[..hi2] == P2.aj[..lo] + P2.aj[lo..hi2];
    } else {
      assert P1.ai[0] == 1 == P2.ai[0];
    }
  }

  // ---------------------------------------------------------------------
  // No fill at level 0.

  /** With levels <= 0 no fill is ever inserted (fill has level >= 0), so
      every factor row holds exactly the columns of the permuted original
      row and as many entries as that row. */
  lemma ILUZeroLevelsNoFill(A: Csr, r: seq<int>, ic: seq<int>, levels: int, P: Pattern,
                            levs: seq<seq<int>>, k: int)
    requires WellFormed(A) && NoDuplicateColumns(A) && IsPermutation(r, A.m) && IsPermutation(ic, A.n)
    requires IsILUPattern(A, r, ic, levels, P, levs) && levels <= 0 && 0 <= k < P.n
    ensures forall x :: x in RowOf(P, k) <==> x in PermRow(A, r, ic, k)
    ensures P.ai[k + 1] - P.ai[k] == A.ai[r[k] + 1] - A.ai[r[k]]
  {
    var rows := seq(P.n, j => if 0 <= j < P.n then RowOf(P, j) else []);
    var PR := PermRow(A, r, ic, k);
    assert ILURowBuilt(A, r, ic, levels, rows, levs, k);
    var R := rows[k];
    assert R == RowOf(P, k);
    forall x | x in R
      ensures x in PR
    {
      var p :| 0 <= p < |R| && R[p] == x;
    }
    PermRowDistinct(A, r, ic, k);
    SameColumnsSameLength(R, PR);
  }
}
