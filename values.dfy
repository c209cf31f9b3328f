/** The state-value tables of the learner (dicts from state key to value)
    and the backward temporal-difference pass over one episode's trace.
    Values are exact reals; the source computes with floats. */
module Values {

  /** states_values.get(key), where an absent key reads as 0. */
  function Lookup(table: map<string, real>, key: string): real {
    if key in table then table[key] else 0.0
  }

  /** The new value of a state read as v when the signal from the state
      after it is signal: v + lr * (gamma * signal - v). */
  function TdStep(v: real, signal: real, lr: real, gamma: real): real {
    v + lr * (gamma * signal - v)
  }

  /** The table after the backward pass over trace: the last state is updated
      first from signal, and each earlier state from the value just written
      for the state after it. */
  function Propagate(table: map<string, real>, trace: seq<string>, signal: real, lr: real, gamma: real): map<string, real>
    decreases |trace|
  {
    if trace == [] then table
    else
      var n := |trace| - 1;
      var s := trace[n];
      var v' := TdStep(Lookup(table, s), signal, lr, gamma);
      Propagate(table[s := v'], trace[..n], v', lr, gamma)
  }

  /** The pass gives every state of the trace an entry and removes none. */
  lemma {:induction false} PropagateKeys(table: map<string, real>, trace: seq<string>, signal: real, lr: real, gamma: real)
    ensures Propagate(table, trace, signal, lr, gamma).Keys == table.Keys + set s | s in trace
    decreases |trace|
  {
    if trace != [] {
      var n := |trace| - 1;
      var s := trace[n];
      var v' := TdStep(Lookup(table, s), signal, lr, gamma);
      PropagateKeys(table[s := v'], trace[..n], v', lr, gamma);
      assert trace == trace[..n] + [s];
      assert (set x | x in trace) == (set x | x in trace[..n]) + {s};
    }
  }

  /** One step of the pass: the last state of the trace first. */
  lemma PropagateUnfold(table: map<string, real>, trace: seq<string>, signal: real, lr: real, gamma: real)
    requires trace != []
    ensures var s := trace[|trace| - 1];
            var v' := TdStep(Lookup(table, s), signal, lr, gamma);
            Propagate(table, trace, signal, lr, gamma) == Propagate(table[s := v'], trace[..|trace| - 1], v', lr, gamma)
  {
  }

  /** One iteration of update_states_values, on the prefix trace[..i]: give
      state trace[i-1] its entry (0 when absent), update it from the signal,
      and the rest of the pass continues from the value written. */
  lemma PropagateBackStep(table: map<string, real>, mid: map<string, real>, trace: seq<string>, i: int,
                          signal: real, lr: real, gamma: real)
    requires 0 < i <= |trace|
    requires mid.Keys == table.Keys + {trace[i - 1]}
    requires forall x :: x in table && x != trace[i - 1] ==> mid[x] == table[x]
    requires mid[trace[i - 1]] == Lookup(table, trace[i - 1])
    ensures var v := TdStep(mid[trace[i - 1]], signal, lr, gamma);
            Propagate(mid[trace[i - 1] := v], trace[..i - 1], v, lr, gamma) == Propagate(table, trace[..i], signal, lr, gamma)
  {
    var s := trace[i - 1];
    var v := TdStep(mid[s], signal, lr, gamma);
    assert mid[s := v] == table[s := v];
    assert trace[..i][..i - 1] == trace[..i - 1];
    PropagateUnfold(table, trace[..i], signal, lr, gamma);
  }

  /** The pass leaves the value of every key outside the trace as it was. */
  lemma {:induction false} PropagateFrame(table: map<string, real>, trace: seq<string>, signal: real, lr: real, gamma: real)
    ensures forall k :: k in table && k !in trace ==>
              k in Propagate(table, trace, signal, lr, gamma) && Propagate(table, trace, signal, lr, gamma)[k] == table[k]
    decreases |trace|
  {
    if trace != [] {
      var n := |trace| - 1;
      var s := trace[n];
      var v' := TdStep(Lookup(table, s), signal, lr, gamma);
      PropagateFrame(table[s := v'], trace[..n], v', lr, gamma);
      assert trace == trace[..n] + [s];
    }
  }

  /** A state that no later entry of the trace repeats keeps the value its own
      step wrote: the earlier steps of the pass do not touch it again. */
  lemma {:induction false} PropagateLastWrite(table: map<string, real>, trace: seq<string>, signal: real, lr: real, gamma: real)
    requires trace != [] && trace[|trace| - 1] !in trace[..|trace| - 1]
    ensures trace[|trace| - 1] in Propagate(table, trace, signal, lr, gamma)
    ensures Propagate(table, trace, signal, lr, gamma)[trace[|trace| - 1]]
            == TdStep(Lookup(table, trace[|trace| - 1]), signal, lr, gamma)
  {
    var n := |trace| - 1;
    var s := trace[n];
    var v' := TdStep(Lookup(table, s), signal, lr, gamma);
    PropagateFrame(table[s := v'], trace[..n], v', lr, gamma);
  }

  /** r discounted k times by the factor x, that is x^k * r. */
  function Discounted(x: real, k: nat, r: real): real {
    if k == 0 then r else x * Discounted(x, k - 1, r)
  }

  /** Discounting the once-discounted reward k times is discounting k + 1 times. */
  lemma {:induction false} DiscountedShift(x: real, k: nat, r: real)
    ensures Discounted(x, k, x * r) == Discounted(x, k + 1, r)
  {
    if k > 0 {
      DiscountedShift(x, k - 1, r);
    }
  }

  /** A state read as 0 takes lr * gamma * signal. */
  lemma TdStepFromZero(signal: real, lr: real, gamma: real)
    ensures TdStep(0.0, signal, lr, gamma) == (lr * gamma) * signal
  {
  }

  /** A single state without an entry receives lr * gamma * r. */
  lemma PropagateSingleUnseen(table: map<string, real>, s: string, r: real, lr: real, gamma: real)
    requires s !in table
    ensures Propagate(table, [s], r, lr, gamma) == table[s := lr * gamma * r]
  {
    assert [s][..0] == [];
    TdStepFromZero(r, lr, gamma);
  }

  /** The trace holds no state twice, and none of its states has an entry yet. */
  predicate FreshTrace(table: map<string, real>, trace: seq<string>) {
    && (forall i, j :: 0 <= i < j < |trace| ==> trace[i] != trace[j])
    && (forall i :: 0 <= i < |trace| ==> trace[i] !in table)
  }

  /** Over a fresh trace the state k places before the end receives
      (lr * gamma)^(k+1) * r: the terminal reward reaches earlier states
      discounted once per step. */
  lemma {:induction false} PropagateFreshTrace(table: map<string, real>, trace: seq<string>, r: real, lr: real, gamma: real, i: nat)
    requires FreshTrace(table, trace) && i < |trace|
    ensures trace[i] in Propagate(table, trace, r, lr, gamma)
    ensures Propagate(table, trace, r, lr, gamma)[trace[i]] == Discounted(lr * gamma, |trace| - i, r)
    decreases |trace|, 1
  {
    var n := |trace| - 1;
    var s := trace[n];
    assert s !in trace[..n] by {
      forall k | 0 <= k < n ensures trace[..n][k] != s {
        assert trace[k] != trace[n];
      }
    }
    if i == n {
      PropagateLastWrite(table, trace, r, lr, gamma);
      TdStepFromZero(r, lr, gamma);
      assert Discounted(lr * gamma, 1, r) == lr * gamma * Discounted(lr * gamma, 0, r);
    } else {
      PropagateFreshEarlier(table, trace, r, lr, gamma, i);
    }
  }

  /** Dropping the last state of a fresh trace and giving it an entry leaves
      a fresh trace. */
  lemma FreshTraceInit(table: map<string, real>, trace: seq<string>, v: real)
    requires FreshTrace(table, trace) && trace != []
    ensures FreshTrace(table[trace[|trace| - 1] := v], trace[..|trace| - 1])
  {
    var n := |trace| - 1;
    forall k | 0 <= k < n ensures trace[..n][k] != trace[n] {
      assert trace[k] != trace[n];
    }
  }

  /** The inductive step of PropagateFreshTrace, for a state before the last. */
  lemma {:induction false} PropagateFreshEarlier(table: map<string, real>, trace: seq<string>, r: real, lr: real, gamma: real, i: nat)
    requires FreshTrace(table, trace) && i < |trace| - 1
    ensures trace[i] in Propagate(table, trace, r, lr, gamma)
    ensures Propagate(table, trace, r, lr, gamma)[trace[i]] == Discounted(lr * gamma, |trace| - i, r)
    decreases |trace|, 0
  {
    var n := |trace| - 1;
    var s := trace[n];
    var x := lr * gamma;
    var v' := TdStep(Lookup(table, s), r, lr, gamma);
    assert v' == x * r by {
      assert Lookup(table, s) == 0.0;
      TdStepFromZero(r, lr, gamma);
    }
    FreshTraceInit(table, trace, v');
    PropagateFreshTrace(table[s := v'], trace[..n], v', lr, gamma, i);
    DiscountedShift(x, n - i, r);
  }

  /** Every entry lies between the smallest and the largest terminal reward. */
  predicate InRange(table: map<string, real>) {
    forall k :: k in table ==> -2.0 <= table[k] <= 1.0
  }

  /** One step keeps a value in [-2, 1] when its signal is in [-2, 1]. */
  lemma TdStepInRange(v: real, signal: real, lr: real, gamma: real)
    requires -2.0 <= v <= 1.0 && -2.0 <= signal <= 1.0
    requires 0.0 <= lr <= 1.0 && 0.0 <= gamma <= 1.0
    ensures -2.0 <= TdStep(v, signal, lr, gamma) <= 1.0
  {
    var g := gamma * signal;
    assert -2.0 <= g <= 1.0 by {
      if signal >= 0.0 {
        MulNonneg(gamma, signal);
        MulNonneg(1.0 - gamma, signal);
        assert (1.0 - gamma) * signal == signal - gamma * signal;
      } else {
        MulNonneg(gamma, -signal);
        MulNonneg(1.0 - gamma, -signal);
        assert gamma * (-signal) == -(gamma * signal);
        assert (1.0 - gamma) * (-signal) == gamma * signal - signal;
      }
    }
    assert TdStep(v, signal, lr, gamma) == (1.0 - lr) * v + lr * g;
    ConvexInRange(v, g, lr);
  }

  lemma ConvexInRange(v: real, g: real, lr: real)
    requires -2.0 <= v <= 1.0 && -2.0 <= g <= 1.0 && 0.0 <= lr <= 1.0
    ensures -2.0 <= (1.0 - lr) * v + lr * g <= 1.0
  {
    MulNonneg(1.0 - lr, 1.0 - v);
    MulNonneg(lr, 1.0 - g);
    MulNonneg(1.0 - lr, v + 2.0);
    MulNonneg(lr, g + 2.0);
  }

  lemma MulNonneg(a: real, b: real)
    requires a >= 0.0 && b >= 0.0
    ensures a * b >= 0.0
  {
  }

  /** With a terminal reward in [-2, 1] and lr, gamma in [0, 1], the pass keeps
      every value of the table in [-2, 1]. */
  lemma {:induction false} PropagateInRange(table: map<string, real>, trace: seq<string>, signal: real, lr: real, gamma: real)
    requires InRange(table) && -2.0 <= signal <= 1.0
    requires 0.0 <= lr <= 1.0 && 0.0 <= gamma <= 1.0
    ensures InRange(Propagate(table, trace, signal, lr, gamma))
    decreases |trace|
  {
    if trace != [] {
      var n := |trace| - 1;
      var s := trace[n];
      TdStepInRange(Lookup(table, s), signal, lr, gamma);
      var v' := TdStep(Lookup(table, s), signal, lr, gamma);
      PropagateInRange(table[s := v'], trace[..n], v', lr, gamma);
    }
  }

  /** Inside [-2, 1] every value, present or defaulted, beats the sentinel. */
  lemma LookupInRange(table: map<string, real>, key: string)
    requires InRange(table)
    ensures -2.0 <= Lookup(table, key) <= 1.0
  {
  }
}
