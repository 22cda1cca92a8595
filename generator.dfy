/**
 * Generation of random starting values with a given total (the bank).
 *
 * The generator draws one value in [-3, 3] per node, then moves the total
 * toward the bank one unit per step: each step takes two from one node and
 * gives one to another (or the reverse when the total is below the bank).
 * Finally, if no value is negative, a transfer from the last node to the
 * first makes the board non-trivial.  The random draws are parameters: the
 * initial values and one pair of node indices per step.
 */
module Generator {
  import opened Wrappers
  import opened Chips

  function Sum(a: seq<int>): int
    decreases |a|
  {
    if a == [] then 0 else Sum(a[..|a| - 1]) + a[|a| - 1]
  }

  /** The largest value (numpy's max). */
  function Max(a: seq<int>): (m: int)
    requires a != []
    ensures forall i :: 0 <= i < |a| ==> a[i] <= m
    ensures exists i :: 0 <= i < |a| && a[i] == m
    decreases |a|
  {
    if |a| == 1 then a[0]
    else
      var m := Max(a[..|a| - 1]);
      assert forall i :: 0 <= i < |a| - 1 ==> a[..|a| - 1][i] == a[i];
      if a[|a| - 1] > m then a[|a| - 1] else m
  }

  /** No value is negative (`not sum(a < 0)`). */
  predicate NoNegative(a: seq<int>) {
    forall i :: 0 <= i < |a| ==> a[i] >= 0
  }

  /** A step's index pair is in range. */
  predicate InRange(picks: seq<(nat, nat)>, n: int) {
    forall k :: 0 <= k < |picks| ==> picks[k].0 < n && picks[k].1 < n
  }

  lemma {:induction false} SumUpdate(a: seq<int>, i: int, x: int)
    requires 0 <= i < |a|
    ensures Sum(a[i := x]) == Sum(a) - a[i] + x
    decreases |a|
  {
    var b := a[i := x];
    if i < |a| - 1 {
      assert b[..|b| - 1] == a[..|a| - 1][i := x];
      SumUpdate(a[..|a| - 1], i, x);
    } else {
      assert b[..|b| - 1] == a[..|a| - 1];
    }
  }

  /** `a` with d added at index i (numpy's `a[i] += d`). */
  function Add(a: seq<int>, i: nat, d: int): (r: seq<int>)
    requires i < |a|
    ensures |r| == |a|
  {
    a[i := a[i] + d]
  }

  lemma {:induction false} SumAdd(a: seq<int>, i: nat, d: int)
    requires i < |a|
    ensures Sum(Add(a, i, d)) == Sum(a) + d
  {
    SumUpdate(a, i, a[i] + d);
  }

  // ---------------------------------------------------------------------------
  // Balancing

  /** One balancing step: two leave node i0 and one arrives at node i1 when the
      total is above the bank (`down`); two arrive and one leaves otherwise. */
  function Shift(a: seq<int>, i0: nat, i1: nat, down: bool): (r: seq<int>)
    requires i0 < |a| && i1 < |a|
    ensures |r| == |a|
  {
    var s0, s1 := if down then 2 else -2, if down then 1 else -1;
    Add(Add(a, i0, -s0), i1, s1)
  }

  /** Each step moves the total by exactly one toward the bank. */
  lemma ShiftSum(a: seq<int>, i0: nat, i1: nat, down: bool)
    requires i0 < |a| && i1 < |a|
    ensures Sum(Shift(a, i0, i1, down)) == Sum(a) + (if down then -1 else 1)
  {
    var s0, s1 := if down then 2 else -2, if down then 1 else -1;
    SumAdd(a, i0, -s0);
    SumAdd(Add(a, i0, -s0), i1, s1);
  }

  /** The values after the balancing steps, in order. */
  function Balance(a: seq<int>, picks: seq<(nat, nat)>, down: bool): (r: seq<int>)
    requires InRange(picks, |a|)
    ensures |r| == |a|
    decreases |picks|
  {
    if picks == [] then a
    else
      var p := picks[|picks| - 1];
      Shift(Balance(a, picks[..|picks| - 1], down), p.0, p.1, down)
  }

  /** k steps move the total by k toward the bank. */
  lemma {:induction false} BalanceSum(a: seq<int>, picks: seq<(nat, nat)>, down: bool)
    requires InRange(picks, |a|)
    ensures Sum(Balance(a, picks, down)) == Sum(a) + (if down then -|picks| else |picks|)
    decreases |picks|
  {
    if picks != [] {
      var p := picks[|picks| - 1];
      BalanceSum(a, picks[..|picks| - 1], down);
      ShiftSum(Balance(a, picks[..|picks| - 1], down), p.0, p.1, down);
    }
  }

  /** As many steps as the total is away from the bank bring it to the bank. */
  lemma BalanceReachesBank(a: seq<int>, bank: int, picks: seq<(nat, nat)>)
    requires InRange(picks, |a|) && |picks| == Abs(Sum(a) - bank)
    ensures Sum(Balance(a, picks, Sum(a) - bank > 0)) == bank
  {
    BalanceSum(a, picks, Sum(a) - bank > 0);
  }

  // ---------------------------------------------------------------------------
  // The final transfer

  /** The transfer as the generator writes it: the first node gains the
      maximum, then the last node loses the maximum of the updated values. */
  function FixUpAsWritten(a: seq<int>): (r: seq<int>)
    requires a != []
    ensures |r| == |a|
    ensures forall i :: 0 < i < |a| - 1 ==> r[i] == a[i]
    ensures !NoNegative(a) ==> r == a
  {
    if NoNegative(a) then
      var b := Add(a, 0, Max(a));
      Add(b, |b| - 1, -Max(b))
    else a
  }

  /** As written, the transfer lowers the total of a non-negative board by its
      first value, because the second maximum already includes that value. */
  lemma FixUpAsWrittenSum(a: seq<int>)
    requires a != []
    ensures Sum(FixUpAsWritten(a)) == Sum(a) - (if NoNegative(a) then a[0] else 0)
  {
    if NoNegative(a) {
      var m := Max(a);
      var b := Add(a, 0, m);
      assert Max(b) == a[0] + m by {
        assert b[0] == a[0] + m;
        assert forall i :: 0 <= i < |b| ==> b[i] <= a[0] + m;
      }
      SumAdd(a, 0, m);
      SumAdd(b, |b| - 1, -(a[0] + m));
    }
  }

  /** [1, 0] with bank 1 needs no balancing, yet comes out as [2, -2], whose total is 0. */
  lemma FixUpAsWrittenMissesBank()
    ensures Balance([1, 0], [], Sum([1, 0]) - 1 > 0) == [1, 0]
    ensures FixUpAsWritten([1, 0]) == [2, -2] && Sum(FixUpAsWritten([1, 0])) != 1
  {
    assert Max([1, 0]) == 1 by {
      assert [1, 0][..1] == [1];
    }
    assert Max([2, 0]) == 2 by {
      assert [2, 0][..1] == [2];
    }
    assert [1, 0][0 := 2] == [2, 0];
    assert [2, 0][1 := -2] == [2, -2];
    assert Sum([2, -2]) == 0 by {
      assert [2, -2][..1] == [2];
      assert [2][..0] == [];
    }
  }

  /** The transfer with one maximum: the first node gains what the last loses. */
  function FixUp(a: seq<int>): (r: seq<int>)
    requires a != []
    ensures |r| == |a|
    ensures forall i :: 0 < i < |a| - 1 ==> r[i] == a[i]
    ensures !NoNegative(a) ==> r == a
  {
    if NoNegative(a) then
      var m := Max(a);
      Add(Add(a, 0, m), |a| - 1, -m)
    else a
  }

  /** The transfer with one maximum keeps the total. */
  lemma FixUpSum(a: seq<int>)
    requires a != []
    ensures Sum(FixUp(a)) == Sum(a)
  {
    if NoNegative(a) {
      var m := Max(a);
      SumAdd(a, 0, m);
      SumAdd(Add(a, 0, m), |a| - 1, -m);
    }
  }

  // ---------------------------------------------------------------------------
  // The generator

  /** Copies the drawn values into an array and runs the balancing loop on it. */
  method Balanced(initial: seq<int>, bank: int, picks: seq<(nat, nat)>) returns (a: array<int>)
    requires initial != [] && |picks| >= Abs(Sum(initial) - bank) && InRange(picks, |initial|)
    ensures fresh(a)
    ensures a[..] == Balance(initial, picks[..Abs(Sum(initial) - bank)], Sum(initial) - bank > 0)
    ensures Sum(a[..]) == bank
  {
    a := new int[|initial|];
    forall i | 0 <= i < a.Length {
      a[i] := initial[i];
    }
    assert a[..] == initial;
    var diff := Sum(initial) - bank;
    BalanceInPlace(a, picks[..Abs(diff)], diff > 0);
    BalanceReachesBank(initial, bank, picks[..Abs(diff)]);
  }

  /** Random values for n = |initial| nodes, as the generator computes them;
      None for no nodes, where the generator fails.  `initial` are the drawn
      values and `picks` the drawn index pairs, one per balancing step.  The
      balancing brings the total to `bank`; the final transfer then lowers it
      by the first value when no value is negative. */
  method RandomListOfValues(initial: seq<int>, bank: int, picks: seq<(nat, nat)>) returns (r: Option<seq<int>>)
    requires forall i :: 0 <= i < |initial| ==> -3 <= initial[i] <= 3
    requires initial != [] ==> |picks| >= Abs(Sum(initial) - bank) && InRange(picks, |initial|)
    ensures initial == [] ==> r == None
    ensures initial != [] ==>
      var diff := Sum(initial) - bank;
      var b := Balance(initial, picks[..Abs(diff)], diff > 0);
      && r == Some(FixUpAsWritten(b))
      && Sum(b) == bank
      && Sum(r.value) == bank - (if NoNegative(b) then b[0] else 0)
  {
    if initial == [] {
      return None;
    }
    var a := Balanced(initial, bank, picks);
    ghost var b := a[..];
    FixUpAsWrittenInPlace(a);
    r := Some(a[..]);
    FixUpAsWrittenSum(b);
  }

  /** The generator with the one-maximum transfer: its values total exactly `bank`. */
  method RandomListOfValuesCorrected(initial: seq<int>, bank: int, picks: seq<(nat, nat)>) returns (r: Option<seq<int>>)
    requires forall i :: 0 <= i < |initial| ==> -3 <= initial[i] <= 3
    requires initial != [] ==> |picks| >= Abs(Sum(initial) - bank) && InRange(picks, |initial|)
    ensures initial == [] ==> r == None
    ensures initial != [] ==> r.Some? && |r.value| == |initial| && Sum(r.value) == bank
    ensures initial != [] ==>
      var diff := Sum(initial) - bank;
      r == Some(FixUp(Balance(initial, picks[..Abs(diff)], diff > 0)))
  {
    if initial == [] {
      return None;
    }
    var a := Balanced(initial, bank, picks);
    ghost var b := a[..];
    FixUpInPlace(a);
    r := Some(a[..]);
    FixUpSum(b);
  }

  /** The balancing loop, on the array in place. */
  method BalanceInPlace(a: array<int>, picks: seq<(nat, nat)>, down: bool)
    requires InRange(picks, a.Length)
    modifies a
    ensures a[..] == Balance(old(a[..]), picks, down)
  {
    ghost var a0 := a[..];
    var s0, s1 := if down then 2 else -2, if down then 1 else -1;
    for i := 0 to |picks|
      invariant a[..] == Balance(a0, picks[..i], down)
    {
      assert picks[..i + 1][..i] == picks[..i];
      var (i0, i1) := picks[i];
      a[i0] := a[i0] - s0;
      a[i1] := a[i1] + s1;
    }
    assert picks[..|picks|] == picks;
  }

  /** The final transfer as written, on the array in place: the maximum is
      read again after the first value has grown. */
  method FixUpAsWrittenInPlace(a: array<int>)
    requires a.Length > 0
    modifies a
    ensures a[..] == FixUpAsWritten(old(a[..]))
  {
    if NoNegative(a[..]) {
      a[0] := a[0] + Max(a[..]);
      a[a.Length - 1] := a[a.Length - 1] - Max(a[..]);
    }
  }

  /** The one-maximum transfer, on the array in place. */
  method FixUpInPlace(a: array<int>)
    requires a.Length > 0
    modifies a
    ensures a[..] == FixUp(old(a[..]))
  {
    if NoNegative(a[..]) {
      var m := Max(a[..]);
      a[0] := a[0] + m;
      a[a.Length - 1] := a[a.Length - 1] - m;
    }
  }
}
