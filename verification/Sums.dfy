/** Sums of an amount over a row of accounts. */
module Sums {

  function SumOf<W>(ws: seq<W>, amount: W -> nat, n: nat): (total: nat)
    requires n <= |ws|
  {
    if n == 0 then 0 else SumOf(ws, amount, n - 1) + amount(ws[n - 1])
  }

  lemma {:induction false} SumUpdate<W>(ws: seq<W>, amount: W -> nat, n: nat, i: nat, w: W)
    requires n <= |ws| && i < |ws|
    ensures SumOf(ws[i := w], amount, n) == SumOf(ws, amount, n) + if i < n then amount(w) - amount(ws[i]) else 0
  {
    if n > 0 { SumUpdate(ws, amount, n - 1, i, w); }
  }

  lemma {:induction false} SumAtLeast<W>(ws: seq<W>, amount: W -> nat, n: nat, i: nat)
    requires i < n <= |ws|
    ensures amount(ws[i]) <= SumOf(ws, amount, n)
  {
    if i < n - 1 { SumAtLeast(ws, amount, n - 1, i); }
  }

  lemma {:induction false} SumAtLeastTwo<W>(ws: seq<W>, amount: W -> nat, n: nat, i: nat, j: nat)
    requires i < n <= |ws| && j < n && i != j
    ensures amount(ws[i]) + amount(ws[j]) <= SumOf(ws, amount, n)
  {
    if i == n - 1 {
      SumAtLeast(ws, amount, n - 1, j);
    } else if j == n - 1 {
      SumAtLeast(ws, amount, n - 1, i);
    } else {
      SumAtLeastTwo(ws, amount, n - 1, i, j);
    }
  }

  lemma {:induction false} SumOfZeros<W>(ws: seq<W>, amount: W -> nat, n: nat)
    requires n <= |ws| && forall i :: 0 <= i < n ==> amount(ws[i]) == 0
    ensures SumOf(ws, amount, n) == 0
  {
    if n > 0 { SumOfZeros(ws, amount, n - 1); }
  }
}
