/** The nominal production matrix: one row per activity and one column per
    day of the horizon, each valid activity producing its units evenly
    over the days of its duration from its (truncated) start day. */
module Production {
  import opened Model

  /** Python's `int(x)` on a number: truncation toward zero. */
  function Trunc(x: real): (r: int)
    ensures 0.0 <= x ==> 0 <= r && r as real <= x < r as real + 1.0
    ensures x < 0.0 ==> r <= 0 && r as real - 1.0 < x <= r as real
  {
    if x >= 0.0 then x.Floor else -((-x).Floor)
  }

  /** The bound NumPy uses for a slice index `i` on an axis of length `n`
      (positive step): a negative index counts from the end, and the
      result is clipped to `0..n`. */
  function SliceBound(i: int, n: nat): (r: nat)
    ensures r <= n
    ensures 0 <= i <= n ==> r == i
    ensures i > n ==> r == n
    ensures -(n as int) <= i < 0 ==> r == i + n
    ensures i < -(n as int) ==> r == 0
  {
    if i < 0 then (if i + n < 0 then 0 else i + n)
    else if i > n then n
    else i
  }

  /** Whether the activity produces at all. */
  predicate Produces(a: Activity)
  {
    a.duration > 0 && a.units > 0.0
  }

  function Rate(a: Activity): real
    requires Produces(a)
  {
    a.units / a.duration as real
  }

  /** The first and one-past-last day the slice `start : start + duration`
      covers on a horizon of `horizon` days. */
  function WindowLo(a: Activity, start: real, horizon: nat): nat
  {
    SliceBound(Trunc(start), horizon)
  }

  function WindowHi(a: Activity, start: real, horizon: nat): nat
  {
    SliceBound(Trunc(start) + a.duration, horizon)
  }

  /** Entry `[idx, day]` of the matrix for the activity `a` starting at
      `start`: its daily rate inside its window, 0 elsewhere. */
  function Nominal(a: Activity, start: real, horizon: nat, day: nat): real
  {
    if Produces(a) && WindowLo(a, start, horizon) <= day < WindowHi(a, start, horizon) then Rate(a) else 0.0
  }

  /** generar_matriz_contractual: an `|acts|` by `horizon` matrix, zero but
      for each producing activity's rate over its start-time window. The
      start-time list is read for every activity, so a list shorter than
      the activity table raises an index error. */
  method NominalProduction(acts: seq<Activity>, starts: seq<real>, horizon: nat) returns (res: Result<array2<real>, Fault>)
    ensures res.Err? <==> |starts| < |acts|
    ensures res.Ok? ==> fresh(res.value) && res.value.Length0 == |acts| && res.value.Length1 == horizon
    ensures res.Ok? ==> forall r, c :: 0 <= r < |acts| && 0 <= c < horizon ==>
      res.value[r, c] == Nominal(acts[r], starts[r], horizon, c)
  {
    var C := new real[|acts|, horizon]((_, _) => 0.0);
    for idx := 0 to |acts|
      invariant idx <= |starts|
      invariant forall r, c :: 0 <= r < |acts| && 0 <= c < horizon ==>
        C[r, c] == (if r < idx then Nominal(acts[r], starts[r], horizon, c) else 0.0)
    {
      if idx >= |starts| {
        return Err(IndexError);
      }
      var a := acts[idx];
      if Produces(a) {
        FillRow(C, idx, WindowLo(a, starts[idx], horizon), WindowHi(a, starts[idx], horizon), Rate(a));
      }
    }
    return Ok(C);
  }

  /** The slice assignment `C[idx, lo:hi] = rate` on a zero row. */
  method FillRow(C: array2<real>, idx: nat, lo: nat, hi: nat, rate: real)
    requires idx < C.Length0 && hi <= C.Length1
    modifies C
    ensures forall r, c :: 0 <= r < C.Length0 && 0 <= c < C.Length1 ==>
      C[r, c] == (if r == idx && lo <= c < hi then rate else old(C[r, c]))
  {
    var c := lo;
    while c < hi
      invariant lo <= c && (lo <= hi ==> c <= hi) && (hi < lo ==> c == lo)
      invariant forall r, d :: 0 <= r < C.Length0 && 0 <= d < C.Length1 ==>
        C[r, d] == (if r == idx && lo <= d < c then rate else old(C[r, d]))
    {
      C[idx, c] := rate;
      c := c + 1;
    }
  }

  /** The production of the activity over the first `k` days. */
  function RowTotal(a: Activity, start: real, horizon: nat, k: nat): real
  {
    if k == 0 then 0.0 else RowTotal(a, start, horizon, k - 1) + Nominal(a, start, horizon, k - 1)
  }

  /** The number of days of the window among the first `k`. */
  function Covered(lo: int, hi: int, k: int): nat
  {
    var top := if hi < k then hi else k;
    if top <= lo then 0 else top - lo
  }

  /** Over the first `k` days a producing activity produces its rate on
      each covered day of its window, and a non-producing one nothing. */
  lemma RowTotalClosedForm(a: Activity, start: real, horizon: nat, k: nat)
    ensures !Produces(a) ==> RowTotal(a, start, horizon, k) == 0.0
    ensures Produces(a) ==>
      RowTotal(a, start, horizon, k) == Rate(a) * Covered(WindowLo(a, start, horizon), WindowHi(a, start, horizon), k) as real
  {
    if Produces(a) {
      ProducingTotal(a, start, horizon, k);
    } else {
      IdleTotal(a, start, horizon, k);
    }
  }

  lemma {:induction false} IdleTotal(a: Activity, start: real, horizon: nat, k: nat)
    requires !Produces(a)
    ensures RowTotal(a, start, horizon, k) == 0.0
  {
    if k > 0 {
      IdleTotal(a, start, horizon, k - 1);
    }
  }

  lemma ProducingTotal(a: Activity, start: real, horizon: nat, k: nat)
    requires Produces(a)
    ensures RowTotal(a, start, horizon, k) == Rate(a) * Covered(WindowLo(a, start, horizon), WindowHi(a, start, horizon), k) as real
  {
    var rate, lo, hi := Rate(a), WindowLo(a, start, horizon), WindowHi(a, start, horizon);
    RowTotalIsWindowSum(a, start, horizon, k);
    WindowSumClosedForm(rate, lo, hi, k);
    assert RowTotal(a, start, horizon, k) == WindowSum(rate, lo, hi, k) == rate * Covered(lo, hi, k) as real;
  }

  /** The sum over the first `k` days of `rate` on the days of `lo .. hi`. */
  function WindowSum(rate: real, lo: nat, hi: nat, k: nat): real
  {
    if k == 0 then 0.0 else WindowSum(rate, lo, hi, k - 1) + (if lo <= k - 1 < hi then rate else 0.0)
  }

  lemma {:induction false} RowTotalIsWindowSum(a: Activity, start: real, horizon: nat, k: nat)
    requires Produces(a)
    ensures RowTotal(a, start, horizon, k) == WindowSum(Rate(a), WindowLo(a, start, horizon), WindowHi(a, start, horizon), k)
  {
    if k > 0 {
      RowTotalIsWindowSum(a, start, horizon, k - 1);
    }
  }

  lemma {:induction false} WindowSumClosedForm(rate: real, lo: nat, hi: nat, k: nat)
    ensures WindowSum(rate, lo, hi, k) == rate * Covered(lo, hi, k) as real
  {
    if k > 0 {
      WindowSumClosedForm(rate, lo, hi, k - 1);
      CoveredStep(lo, hi, k - 1);
      ScaleStep(rate, Covered(lo, hi, k - 1), lo <= k - 1 < hi);
    } else {
      assert Covered(lo, hi, 0) == 0;
    }
  }

  /** Adding the rate once more, or not, to `count` days at that rate. */
  lemma ScaleStep(rate: real, count: nat, more: bool)
    ensures rate * count as real + (if more then rate else 0.0) == rate * (count + if more then 1 else 0) as real
  {
  }

  /** One more day adds one covered day exactly when it lies in the window. */
  lemma CoveredStep(lo: nat, hi: nat, k: nat)
    ensures Covered(lo, hi, k + 1) == Covered(lo, hi, k) + (if lo <= k < hi then 1 else 0)
  {
  }

  /** A producing activity that starts on a day `s >= 0` and finishes
      within the horizon produces exactly its units. */
  lemma RowTotalIsUnits(a: Activity, start: real, horizon: nat)
    requires Produces(a) && 0.0 <= start && Trunc(start) + a.duration <= horizon
    ensures RowTotal(a, start, horizon, horizon) == a.units
  {
    RowTotalClosedForm(a, start, horizon, horizon);
    assert Covered(WindowLo(a, start, horizon), WindowHi(a, start, horizon), horizon) == a.duration;
  }

  /** An activity that starts on or after the last day of the horizon
      produces nothing in it: the slice is clipped away. */
  lemma RowPastHorizonIsZero(a: Activity, start: real, horizon: nat)
    requires Trunc(start) >= horizon
    ensures RowTotal(a, start, horizon, horizon) == 0.0
    ensures forall day :: 0 <= day < horizon ==> Nominal(a, start, horizon, day) == 0.0
  {
    RowTotalClosedForm(a, start, horizon, horizon);
  }

  /** Every entry lies between 0 and the activity's rate: the window is
      filled at a constant rate. */
  lemma EntryBounds(a: Activity, start: real, horizon: nat, day: nat)
    ensures Nominal(a, start, horizon, day) >= 0.0
    ensures Produces(a) ==> Nominal(a, start, horizon, day) == 0.0 || Nominal(a, start, horizon, day) == Rate(a)
    ensures Produces(a) && 0 <= Trunc(start) && Trunc(start) <= day < Trunc(start) + a.duration && day < horizon ==>
      Nominal(a, start, horizon, day) == Rate(a)
  {
  }
}
