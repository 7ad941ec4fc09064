/** Start-time propagation with partial progress: walking an order of the
    activities, each activity starts at the latest point at which every
    predecessor of positive duration has reached its required fraction of
    its duration, and never before day 0. */
module StartTimes {
  import opened Model
  import Topology

  /** The predecessors of `idx` from row `u` on, ascending: the rows `p`
      with `m[p, idx] == 1` (NumPy's `where` over a column). */
  function PredsFrom(m: array2<int>, idx: nat, u: nat): (r: seq<nat>)
    reads m
    requires idx < m.Length1
    decreases m.Length0 - u
  {
    if u >= m.Length0 then []
    else (if m[u, idx] == 1 then [u] else []) + PredsFrom(m, idx, u + 1)
  }

  function Preds(m: array2<int>, idx: nat): seq<nat>
    reads m
    requires idx < m.Length1
  {
    PredsFrom(m, idx, 0)
  }

  /** The predecessor list holds exactly the rows, from `u` on, whose
      entry in column `idx` is 1. */
  lemma {:induction false} PredsFromMembers(m: array2<int>, idx: nat, u: nat)
    requires idx < m.Length1
    ensures forall p: nat :: p in PredsFrom(m, idx, u) <==> u <= p < m.Length0 && m[p, idx] == 1
    decreases m.Length0 - u
  {
    if u < m.Length0 {
      PredsFromMembers(m, idx, u + 1);
    }
  }

  predicate Ascending(s: seq<nat>)
  {
    forall i, j :: 0 <= i < j < |s| ==> s[i] < s[j]
  }

  /** The predecessor list is strictly ascending. */
  lemma {:induction false} PredsFromAscending(m: array2<int>, idx: nat, u: nat)
    requires idx < m.Length1
    ensures Ascending(PredsFrom(m, idx, u))
    decreases m.Length0 - u
  {
    if u < m.Length0 && m[u, idx] == 1 {
      PredsFromAscending(m, idx, u + 1);
      PredsFromMembers(m, idx, u + 1);
      var rest := PredsFrom(m, idx, u + 1);
      var r := [u] + rest;
      assert PredsFrom(m, idx, u) == r;
      forall i, j | 0 <= i < j < |r| ensures r[i] < r[j] {
        assert r[j] == rest[j - 1] && rest[j - 1] in rest;
        if i > 0 {
          assert r[i] == rest[i - 1];
        }
      }
    } else if u < m.Length0 {
      PredsFromAscending(m, idx, u + 1);
      assert PredsFrom(m, idx, u) == [] + PredsFrom(m, idx, u + 1);
    }
  }

  /** The predecessors of `idx`, ascending as NumPy lists them, are the
      rows whose entry in column `idx` is 1. */
  lemma PredsSpec(m: array2<int>, idx: nat)
    requires idx < m.Length1
    ensures forall p: nat :: p in Preds(m, idx) <==> p < m.Length0 && m[p, idx] == 1
    ensures Ascending(Preds(m, idx))
  {
    PredsFromMembers(m, idx, 0);
    PredsFromAscending(m, idx, 0);
  }

  /** The progress fraction paired with the `i`-th predecessor: the `i`-th
      token, or 1.0 when there is no such token or it is blank. */
  function Fraction(progress: seq<Option<real>>, i: nat): real
  {
    if i < |progress| && progress[i].Some? then progress[i].value else 1.0
  }

  function Max(a: real, b: real): real
  {
    if a >= b then a else b
  }

  /** Whether the `i`-th predecessor `p` imposes a bound: it has a positive
      duration and a start time in `t`. (A positive-duration predecessor
      without a start time is an error of the caller; see Faulty.) */
  predicate Imposes(acts: seq<Activity>, t: seq<real>, p: nat)
  {
    p < |acts| && p < |t| && acts[p].duration > 0
  }

  /** The bound the predecessor `p`, paired with the fraction `f`, puts on
      the start of its dependent. */
  function Candidate(acts: seq<Activity>, t: seq<real>, p: nat, f: real): real
    requires Imposes(acts, t, p)
  {
    t[p] + f * acts[p].duration as real
  }

  /** The running maximum after the first `i` predecessors, from 0. */
  function EarliestUpTo(acts: seq<Activity>, t: seq<real>, preds: seq<nat>, progress: seq<Option<real>>, i: nat): real
    requires i <= |preds|
  {
    if i == 0 then 0.0
    else
      var p := preds[i - 1];
      var e := EarliestUpTo(acts, t, preds, progress, i - 1);
      if Imposes(acts, t, p) then Max(e, Candidate(acts, t, p, Fraction(progress, i - 1))) else e
  }

  /** The start the predecessors of `idx` allow, given the starts `t`. */
  function Earliest(acts: seq<Activity>, t: seq<real>, m: array2<int>, idx: nat): real
    reads m
    requires idx < m.Length1 && idx < |acts|
  {
    var preds := Preds(m, idx);
    EarliestUpTo(acts, t, preds, acts[idx].progress, |preds|)
  }

  /** The running maximum is at least 0 and each candidate seen so far, and
      is 0 or one of those candidates. */
  lemma {:induction false} EarliestUpToIsMax(acts: seq<Activity>, t: seq<real>, preds: seq<nat>, progress: seq<Option<real>>, i: nat)
    requires i <= |preds|
    ensures var e := EarliestUpTo(acts, t, preds, progress, i);
      e >= 0.0 &&
      (forall j :: 0 <= j < i && Imposes(acts, t, preds[j]) ==> e >= Candidate(acts, t, preds[j], Fraction(progress, j))) &&
      (e == 0.0 || (exists j :: 0 <= j < i && Imposes(acts, t, preds[j]) && e == Candidate(acts, t, preds[j], Fraction(progress, j))))
  {
    if i > 0 {
      EarliestUpToIsMax(acts, t, preds, progress, i - 1);
    }
  }

  /** The start of `idx` is the max of 0 and the bounds of its positive
      duration predecessors, the `j`-th of them paired with the `j`-th
      progress token; it is 0 when no predecessor has a positive duration. */
  lemma EarliestIsMax(acts: seq<Activity>, t: seq<real>, m: array2<int>, idx: nat)
    requires idx < m.Length1 && idx < |acts|
    ensures var e := Earliest(acts, t, m, idx); var preds := Preds(m, idx);
      e >= 0.0 &&
      (forall j :: 0 <= j < |preds| && Imposes(acts, t, preds[j]) ==>
        e >= Candidate(acts, t, preds[j], Fraction(acts[idx].progress, j))) &&
      (e == 0.0 ||
       (exists j :: 0 <= j < |preds| && Imposes(acts, t, preds[j]) &&
                    e == Candidate(acts, t, preds[j], Fraction(acts[idx].progress, j))))
    ensures (forall p :: p in Preds(m, idx) ==> !Imposes(acts, t, p)) ==> Earliest(acts, t, m, idx) == 0.0
  {
    var preds := Preds(m, idx);
    EarliestUpToIsMax(acts, t, preds, acts[idx].progress, |preds|);
  }

  /** Changing the start of an activity that is not among `preds` does not
      change the running maximum. */
  lemma {:induction false} EarliestUpToFrame(acts: seq<Activity>, t: seq<real>, preds: seq<nat>, progress: seq<Option<real>>, i: nat, x: nat, v: real)
    requires i <= |preds| && x < |t| && x !in preds
    ensures EarliestUpTo(acts, t[x := v], preds, progress, i) == EarliestUpTo(acts, t, preds, progress, i)
  {
    if i > 0 {
      EarliestUpToFrame(acts, t, preds, progress, i - 1, x, v);
      assert preds[i - 1] != x;
    }
  }

  /** The call in position `k` of `order` raises an index error. In order:
      the activity is not a column of the matrix; a predecessor of positive
      duration has no entry in the start-time list; the activity itself has
      none. */
  predicate FaultAt(acts: seq<Activity>, m: array2<int>, order: seq<nat>, size: nat, k: nat)
    reads m
    requires m.Length0 == |acts| && m.Length1 == |acts|
    requires k < |order|
  {
    var idx := order[k];
    idx >= |acts| ||
    (exists p :: p in Preds(m, idx) && Blocks(acts, p, size)) ||
    idx >= size
  }

  /** A predecessor of positive duration without a start-time entry. */
  predicate Blocks(acts: seq<Activity>, p: nat, size: nat)
  {
    p < |acts| && acts[p].duration > 0 && p >= size
  }

  predicate Faulty(acts: seq<Activity>, m: array2<int>, order: seq<nat>, size: nat)
    reads m
    requires m.Length0 == |acts| && m.Length1 == |acts|
  {
    exists k :: 0 <= k < |order| && FaultAt(acts, m, order, size, k)
  }

  /** `order` lists distinct activities of the matrix, each after all its
      predecessors. */
  predicate PredClosed(m: array2<int>, order: seq<nat>)
    reads m
  {
    Topology.Distinct(order) &&
    (forall k :: 0 <= k < |order| ==> order[k] < m.Length1) &&
    (forall k, p :: 0 <= k < |order| && order[k] < m.Length1 && 0 <= p < m.Length0 && m[p, order[k]] == 1 ==>
      p in order[..k])
  }

  /** The inner loop of calcular_tiempos_inicio: the running maximum over
      the predecessors, which fails when a predecessor of positive
      duration has no entry in the start-time list `t`. */
  method LatestBound(acts: seq<Activity>, t: seq<real>, preds: seq<nat>, progress: seq<Option<real>>) returns (res: Result<real, Fault>)
    requires forall j :: 0 <= j < |preds| ==> preds[j] < |acts|
    ensures res.Err? <==> exists j :: 0 <= j < |preds| && acts[preds[j]].duration > 0 && preds[j] >= |t|
    ensures res.Ok? ==> res.value == EarliestUpTo(acts, t, preds, progress, |preds|)
  {
    var best := 0.0;
    for i := 0 to |preds|
      invariant best == EarliestUpTo(acts, t, preds, progress, i)
      invariant forall j :: 0 <= j < i ==> acts[preds[j]].duration > 0 ==> preds[j] < |t|
    {
      var p := preds[i];
      if acts[p].duration > 0 {
        if p >= |t| {
          return Err(IndexError);
        }
        best := Max(best, t[p] + Fraction(progress, i) * acts[p].duration as real);
      }
    }
    return Ok(best);
  }

  /** calcular_tiempos_inicio over a start-time list of `size` entries, all
      0 at first: each activity of the order in turn gets the start its
      predecessors allow. An index error ends the run. On success the
      times of activities outside the order stay 0, none is negative, and
      when the order is closed under predecessors every activity of the
      order starts exactly where its predecessors allow in the final list. */
  method Propagate(acts: seq<Activity>, order: seq<nat>, m: array2<int>, size: nat) returns (res: Result<seq<real>, Fault>)
    requires m.Length0 == |acts| && m.Length1 == |acts|
    ensures res.Err? <==> Faulty(acts, m, order, size)
    ensures res.Ok? ==> |res.value| == size
    ensures res.Ok? ==> forall k :: 0 <= k < |order| ==> order[k] < size && order[k] < |acts|
    ensures res.Ok? ==> forall v :: 0 <= v < size && v !in order ==> res.value[v] == 0.0
    ensures res.Ok? ==> forall v :: 0 <= v < size ==> res.value[v] >= 0.0
    ensures res.Ok? && PredClosed(m, order) ==>
      forall k :: 0 <= k < |order| ==> res.value[order[k]] == Earliest(acts, res.value, m, order[k])
  {
    var t := seq(size, _ => 0.0);
    for k := 0 to |order|
      invariant |t| == size
      invariant forall j :: 0 <= j < k ==> !FaultAt(acts, m, order, size, j)
      invariant forall j :: 0 <= j < k ==> order[j] < size && order[j] < |acts|
      invariant forall v :: 0 <= v < size && v !in order[..k] ==> t[v] == 0.0
      invariant forall v :: 0 <= v < size ==> t[v] >= 0.0
      invariant PredClosed(m, order) ==>
        forall j :: 0 <= j < k ==> t[order[j]] == Earliest(acts, t, m, order[j])
    {
      var idx := order[k];
      if idx >= |acts| {
        assert FaultAt(acts, m, order, size, k);
        return Err(IndexError);
      }
      var preds := Preds(m, idx);
      PredsInRange(m, idx);
      var bound := LatestBound(acts, t, preds, acts[idx].progress);
      if bound.Err? {
        BoundFaults(acts, m, order, size, k);
        return Err(IndexError);
      }
      if idx >= size {
        assert FaultAt(acts, m, order, size, k);
        return Err(IndexError);
      }
      BoundSucceeds(acts, m, order, size, k);
      EarliestUpToIsMax(acts, t, preds, acts[idx].progress, |preds|);
      Settle(acts, m, order, k, t, bound.value);
      t := t[idx := bound.value];
    }
    assert order[..|order|] == order;
    return Ok(t);
  }

  /** Every predecessor is an activity of the matrix. */
  lemma PredsInRange(m: array2<int>, idx: nat)
    requires idx < m.Length1
    ensures forall j :: 0 <= j < |Preds(m, idx)| ==> Preds(m, idx)[j] < m.Length0
  {
    PredsSpec(m, idx);
    assert forall j :: 0 <= j < |Preds(m, idx)| ==> Preds(m, idx)[j] in Preds(m, idx);
  }

  /** A positive-duration predecessor without a start-time entry is the
      index error of FaultAt. */
  lemma BoundFaults(acts: seq<Activity>, m: array2<int>, order: seq<nat>, size: nat, k: nat)
    requires m.Length0 == |acts| && m.Length1 == |acts|
    requires k < |order| && order[k] < |acts|
    requires exists j :: 0 <= j < |Preds(m, order[k])| && Blocks(acts, Preds(m, order[k])[j], size)
    ensures FaultAt(acts, m, order, size, k)
  {
    var preds := Preds(m, order[k]);
    var j :| 0 <= j < |preds| && Blocks(acts, preds[j], size);
    assert preds[j] in preds;
  }

  /** When every positive-duration predecessor and the activity itself have
      a start-time entry, the step raises no error. */
  lemma BoundSucceeds(acts: seq<Activity>, m: array2<int>, order: seq<nat>, size: nat, k: nat)
    requires m.Length0 == |acts| && m.Length1 == |acts|
    requires k < |order| && order[k] < |acts| && order[k] < size
    requires forall j :: 0 <= j < |Preds(m, order[k])| ==> !Blocks(acts, Preds(m, order[k])[j], size)
    ensures !FaultAt(acts, m, order, size, k)
  {
    var preds := Preds(m, order[k]);
    forall p | p in preds ensures !Blocks(acts, p, size) {
      var j := Topology.IndexOf(preds, p);
    }
  }

  /** Writing the start of `order[k]` keeps the equations of the earlier
      activities of a predecessor-closed order, and makes its own hold. */
  lemma Settle(acts: seq<Activity>, m: array2<int>, order: seq<nat>, k: nat, t: seq<real>, best: real)
    requires m.Length0 == |acts| && m.Length1 == |acts|
    requires k < |order| && forall j :: 0 <= j <= k ==> order[j] < |acts| && order[j] < |t|
    requires best == Earliest(acts, t, m, order[k])
    requires PredClosed(m, order) ==>
      forall j :: 0 <= j < k ==> t[order[j]] == Earliest(acts, t, m, order[j])
    ensures PredClosed(m, order) ==>
      forall j :: 0 <= j < k + 1 ==> t[order[k] := best][order[j]] == Earliest(acts, t[order[k] := best], m, order[j])
  {
    if PredClosed(m, order) {
      var x := order[k];
      var t' := t[x := best];
      forall j | 0 <= j < k + 1 ensures t'[order[j]] == Earliest(acts, t', m, order[j]) {
        var preds := Preds(m, order[j]);
        PredsSpec(m, order[j]);
        assert x !in preds by {
          assert forall i :: 0 <= i < j ==> order[..j][i] == order[i];
          assert x !in order[..j];
          forall p | p in preds ensures p != x {
            assert p in order[..j];
          }
        }
        EarliestUpToFrame(acts, t, preds, acts[order[j]].progress, |preds|, x, best);
        if j < k {
          assert order[j] != x;
        }
      }
    }
  }

  /** calcular_tiempos_inicio as written: the start-time list has one entry
      per activity of the order, though it is indexed by activity. */
  method StartTimesAsWritten(acts: seq<Activity>, order: seq<nat>, m: array2<int>) returns (res: Result<seq<real>, Fault>)
    requires m.Length0 == |acts| && m.Length1 == |acts|
    ensures res.Err? <==> Faulty(acts, m, order, |order|)
    ensures res.Ok? ==> |res.value| == |order|
    ensures res.Ok? ==> forall k :: 0 <= k < |order| ==> order[k] < |order| && order[k] < |acts|
    ensures res.Ok? ==> forall v :: 0 <= v < |order| && v !in order ==> res.value[v] == 0.0
    ensures res.Ok? ==> forall v :: 0 <= v < |order| ==> res.value[v] >= 0.0
    ensures res.Ok? && PredClosed(m, order) ==>
      forall k :: 0 <= k < |order| ==> res.value[order[k]] == Earliest(acts, res.value, m, order[k])
  {
    res := Propagate(acts, order, m, |order|);
  }

  /** calcular_tiempos_inicio with one entry per activity: it does not fail
      on an order of activities of the matrix, and every activity of a
      predecessor-closed order starts where its predecessors allow. */
  method ComputeStartTimes(acts: seq<Activity>, order: seq<nat>, m: array2<int>) returns (t: seq<real>)
    requires m.Length0 == |acts| && m.Length1 == |acts|
    requires forall k :: 0 <= k < |order| ==> order[k] < |acts|
    ensures |t| == |acts|
    ensures forall v :: 0 <= v < |acts| && v !in order ==> t[v] == 0.0
    ensures forall v :: 0 <= v < |acts| ==> t[v] >= 0.0
    ensures PredClosed(m, order) ==>
      forall k :: 0 <= k < |order| ==> t[order[k]] == Earliest(acts, t, m, order[k])
  {
    FullSizeNeverFaults(acts, m, order);
    var res := Propagate(acts, order, m, |acts|);
    t := res.value;
  }

  /** With one entry per activity, only an activity outside the matrix can
      raise the index error. */
  lemma FullSizeNeverFaults(acts: seq<Activity>, m: array2<int>, order: seq<nat>)
    requires m.Length0 == |acts| && m.Length1 == |acts|
    ensures Faulty(acts, m, order, |acts|) <==> exists k :: 0 <= k < |order| && order[k] >= |acts|
  {
    forall k | 0 <= k < |order| && order[k] < |acts| ensures !FaultAt(acts, m, order, |acts|, k) {
      PredsSpec(m, order[k]);
    }
    forall k | 0 <= k < |order| && order[k] >= |acts| ensures FaultAt(acts, m, order, |acts|, k) {
    }
  }

  /** Every bound holds: a start is never before a predecessor of positive
      duration has reached its required fraction. */
  lemma StartsRespectPredecessors(acts: seq<Activity>, m: array2<int>, order: seq<nat>, t: seq<real>, k: nat, j: nat)
    requires m.Length0 == |acts| && m.Length1 == |acts|
    requires k < |order| && order[k] < |acts| && order[k] < |t|
    requires t[order[k]] == Earliest(acts, t, m, order[k])
    requires j < |Preds(m, order[k])| && Imposes(acts, t, Preds(m, order[k])[j])
    ensures var p := Preds(m, order[k])[j];
      t[order[k]] >= t[p] + Fraction(acts[order[k]].progress, j) * acts[p].duration as real
  {
    EarliestIsMax(acts, t, m, order[k]);
  }

  /** A topological order of the dependency graph of all `|acts|`
      activities is closed under predecessors. */
  lemma TopologicalOrderIsPredClosed(g: Topology.Graph, m: array2<int>, order: seq<nat>)
    requires m.Length0 == m.Length1
    requires Topology.IsDependencyGraph(g, m, m.Length0) && Topology.IsTopologicalOrder(g, order)
    ensures PredClosed(m, order)
  {
    Topology.DependencyGraphBounded(g, m, m.Length0);
    assert forall k :: 0 <= k < |order| ==> order[k] in g.nodes;
    forall k, p | 0 <= k < |order| && order[k] < m.Length1 && 0 <= p < m.Length0 && m[p, order[k]] == 1
      ensures p in order[..k]
    {
      assert (p, order[k]) in g.edges;
      var i := Topology.IndexOf(order, p);
      assert order[i] == p && i < k;
      assert order[..k][i] == p;
    }
  }

  /** A list without repetitions drawn from `s` is no longer than `s`. */
  lemma {:induction false} DistinctWithin(order: seq<nat>, s: set<nat>)
    requires Topology.Distinct(order) && forall v :: v in order ==> v in s
    ensures |order| <= |s|
  {
    if order != [] {
      var rest := order[1..];
      assert forall v :: v in rest ==> v in s - {order[0]} by {
        forall v | v in rest ensures v in s - {order[0]} {
          var i := Topology.IndexOf(rest, v);
          assert order[i + 1] == v;
        }
      }
      DistinctWithin(rest, s - {order[0]});
    }
  }

  /** The index error of the code as written: with A3 depending on A2 and
      A1 on no edge, every topological order of the graph has two entries
      and holds activity index 2, so writing its start fails. */
  lemma AsWrittenFaultsOnIsolatedActivity(acts: seq<Activity>, m: array2<int>, g: Topology.Graph, order: seq<nat>)
    requires |acts| == 3 && m.Length0 == 3 && m.Length1 == 3
    requires forall r, c :: 0 <= r < 3 && 0 <= c < 3 ==> m[r, c] == (if r == 1 && c == 2 then 1 else 0)
    requires Topology.IsDependencyGraph(g, m, 3) && Topology.IsTopologicalOrder(g, order)
    ensures Faulty(acts, m, order, |order|)
  {
    assert (1, 2) in g.edges;
    assert Topology.IsEndpoint(g, 2) && Topology.IsEndpoint(g, 1);
    assert 2 in order;
    assert forall v :: v in g.nodes ==> v == 1 || v == 2 by {
      forall v | v in g.nodes ensures v == 1 || v == 2 {
        assert Topology.IsEndpoint(g, v);
      }
    }
    assert forall v :: v in order ==> v in {1, 2};
    DistinctWithin(order, {1, 2});
    var k := Topology.IndexOf(order, 2);
    assert FaultAt(acts, m, order, |order|, k);
  }

  /** The three-activity plan A1 (5 days), A2 (3 days, after all of A1)
      and A3 (2 days, after half of A1): the start equations have the one
      solution 0, 5 and 2.5. */
  lemma ThreeActivityPlan(acts: seq<Activity>, m: array2<int>, t: seq<real>)
    requires |acts| == 3 && m.Length0 == 3 && m.Length1 == 3
    requires acts[0].duration == 5 && acts[1].duration == 3 && acts[2].duration == 2
    requires acts[1].progress == [Some(1.0)] && acts[2].progress == [Some(0.5)]
    requires forall r, c :: 0 <= r < 3 && 0 <= c < 3 ==> m[r, c] == (if r == 0 && c > 0 then 1 else 0)
    requires |t| == 3
    requires t[0] == Earliest(acts, t, m, 0) && t[1] == Earliest(acts, t, m, 1) && t[2] == Earliest(acts, t, m, 2)
    ensures t == [0.0, 5.0, 2.5]
  {
    assert PredsFrom(m, 0, 3) == [] && PredsFrom(m, 1, 3) == [] && PredsFrom(m, 2, 3) == [];
    assert PredsFrom(m, 0, 2) == [] && PredsFrom(m, 1, 2) == [] && PredsFrom(m, 2, 2) == [];
    assert PredsFrom(m, 0, 1) == [] && PredsFrom(m, 1, 1) == [] && PredsFrom(m, 2, 1) == [];
    assert Preds(m, 0) == [] && Preds(m, 1) == [0] && Preds(m, 2) == [0];
    assert t[0] == 0.0;
    assert EarliestUpTo(acts, t, [0], acts[1].progress, 0) == 0.0;
    assert EarliestUpTo(acts, t, [0], acts[2].progress, 0) == 0.0;
    assert t[1] == EarliestUpTo(acts, t, [0], acts[1].progress, 1);
    assert t[2] == EarliestUpTo(acts, t, [0], acts[2].progress, 1);
    assert Imposes(acts, t, 0);
    assert Fraction(acts[1].progress, 0) == 1.0 && Fraction(acts[2].progress, 0) == 0.5;
    assert t[1] == 5.0;
  }
}
