/** The active-row linked list of the symbolic factorizations: an index
    array `fill` of n+1 slots where `fill[n]` is the head, `fill[x]` is the
    column after x, and the value n is the sentinel that ends the list.
    The list is kept in increasing column order. */
module FillList {

  /** The successor of the t-th list entry: the (t+1)-th one, or the sentinel. */
  ghost function Succ(L: seq<int>, n: int, t: nat): int
  {
    if t < |L| then L[t] else n
  }

  /** `fill` represents the increasing list `L` of columns in 0..n-1. */
  ghost predicate IsList(fill: seq<int>, n: int, L: seq<int>)
  {
    && 0 <= n
    && |fill| == n + 1
    && (forall t :: 0 <= t < |L| ==> 0 <= L[t] < n)
    && (forall p, q :: 0 <= p < q < |L| ==> L[p] < L[q])
    && fill[n] == Succ(L, n, 0)
    && (forall t {:trigger fill[L[t]]} :: 0 <= t < |L| ==> fill[L[t]] == Succ(L, n, t + 1))
  }

  /** The scan `do { m = fm; fm = fill[m]; } while (fm < idx)` started at the
      head: it stops at the first entry not below `idx`, returning it in `fm`
      (or the sentinel) and its predecessor in `m` (or the head slot n). */
  method Scan(fill: array<int>, n: int, ghost L: seq<int>, idx: int)
      returns (m: int, fm: int, ghost pos: nat)
    requires IsList(fill[..], n, L) && 0 <= idx < n
    ensures pos <= |L|
    ensures m == (if pos == 0 then n else L[pos - 1])
    ensures fm == Succ(L, n, pos) && idx <= fm
    ensures forall t :: 0 <= t < pos ==> L[t] < idx
  {
    fm := n;
    m := fm;
    fm := fill[m];
    pos := 0;
    while fm < idx
      invariant pos <= |L|
      invariant m == (if pos == 0 then n else L[pos - 1])
      invariant fm == Succ(L, n, pos)
      invariant forall t :: 0 <= t < pos ==> L[t] < idx
      decreases |L| - pos
    {
      m := fm;
      fm := fill[m];
      pos := pos + 1;
    }
  }

  /** `fill[m] = idx; fill[idx] = fm;` after a scan that stopped strictly
      above `idx`: the list gains `idx` at position `pos` and stays increasing. */
  method Splice(fill: array<int>, n: int, ghost L: seq<int>, m: int, fm: int, idx: int, ghost pos: nat)
      returns (ghost L': seq<int>)
    requires IsList(fill[..], n, L) && 0 <= idx < n
    requires pos <= |L| && m == (if pos == 0 then n else L[pos - 1])
    requires fm == Succ(L, n, pos) && idx < fm
    requires forall t :: 0 <= t < pos ==> L[t] < idx
    modifies fill
    ensures L' == L[..pos] + [idx] + L[pos..]
    ensures IsList(fill[..], n, L')
  {
    ghost var f0 := fill[..];
    fill[m] := idx;
    fill[idx] := fm;
    assert fill[..] == f0[m := idx][idx := fm];
    L' := L[..pos] + [idx] + L[pos..];
    SplicedList(f0, n, L, m, fm, idx, pos);
  }

  /** The list-level effect of a splice, on the contents of `fill`. */
  lemma SplicedList(f: seq<int>, n: int, L: seq<int>, m: int, fm: int, idx: int, pos: nat)
    requires IsList(f, n, L) && 0 <= idx < n
    requires pos <= |L| && m == (if pos == 0 then n else L[pos - 1])
    requires fm == Succ(L, n, pos) && idx < fm
    requires forall t :: 0 <= t < pos ==> L[t] < idx
    ensures IsList(f[m := idx][idx := fm], n, L[..pos] + [idx] + L[pos..])
  {
    var L' := L[..pos] + [idx] + L[pos..];
    var g := f[m := idx][idx := fm];
    InsertKeepsOrder(L, n, idx, pos, fm);
    forall t | 0 <= t < |L'|
      ensures g[L'[t]] == Succ(L', n, t + 1)
    {
      InsertedAt(L, idx, pos, t);
      if t < pos - 1 {
        assert L[t] < L[pos - 1];
        InsertedAt(L, idx, pos, t + 1);
      } else if t == pos - 1 {
        assert L'[t] == m;
        InsertedAt(L, idx, pos, t + 1);
      } else if t == pos {
        assert Succ(L', n, t + 1) == fm by {
          if t + 1 < |L'| { InsertedAt(L, idx, pos, t + 1); }
        }
      } else {
        assert L[t - 1] > idx;
        assert Succ(L', n, t + 1) == Succ(L, n, t) by {
          if t + 1 < |L'| { InsertedAt(L, idx, pos, t + 1); }
        }
      }
    }
    assert g[n] == Succ(L', n, 0) by {
      if |L'| > 0 { InsertedAt(L, idx, pos, 0); }
    }
  }

  lemma InsertedAt(L: seq<int>, idx: int, pos: nat, t: int)
    requires pos <= |L| && 0 <= t <= |L|
    ensures (L[..pos] + [idx] + L[pos..])[t] == (if t < pos then L[t] else if t == pos then idx else L[t - 1])
  {
  }

  /** Inserting idx where the scan stopped keeps the list increasing and in range. */
  lemma InsertKeepsOrder(L: seq<int>, n: int, idx: int, pos: nat, fm: int)
    requires (forall t :: 0 <= t < |L| ==> 0 <= L[t] < n)
    requires (forall p, q :: 0 <= p < q < |L| ==> L[p] < L[q])
    requires 0 <= idx < n && pos <= |L| && fm == Succ(L, n, pos) && idx < fm
    requires forall t :: 0 <= t < pos ==> L[t] < idx
    ensures forall t :: pos <= t < |L| ==> L[t] > idx
    ensures var L' := L[..pos] + [idx] + L[pos..];
      && (forall t :: 0 <= t < |L'| ==> 0 <= L'[t] < n)
      && (forall p, q :: 0 <= p < q < |L'| ==> L'[p] < L'[q])
  {
    forall t | pos <= t < |L|
      ensures L[t] > idx
    {
      if t > pos { assert L[pos] < L[t]; }
    }
    var L' := L[..pos] + [idx] + L[pos..];
    forall t | 0 <= t < |L'|
      ensures 0 <= L'[t] < n
    {
      InsertedAt(L, idx, pos, t);
    }
    forall p, q | 0 <= p < q < |L'|
      ensures L'[p] < L'[q]
    {
      InsertedAt(L, idx, pos, p);
      InsertedAt(L, idx, pos, q);
      if p < pos && q > pos {
        assert L[p] < idx < L[q - 1];
      } else if p > pos {
        assert L[p - 1] < L[q - 1];
      }
    }
  }
}
