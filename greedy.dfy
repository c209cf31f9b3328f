/** The first-maximum scan of get_action over the values of its candidates,
    as a function of the list of values. */
module Greedy {

  /** The running maximum get_action starts from (-1e4). */
  const Sentinel: real := -10000.0

  /** The loop variables of the scan: the position whose value is held (-1
      while none has been taken) and that value. */
  datatype ScanState = ScanState(best: int, maxVal: real)

  /** The scan over vals[..i]: a value replaces the one held only when it is
      strictly larger. */
  function Scan(vals: seq<real>, i: nat): (st: ScanState)
    requires i <= |vals|
    ensures -1 <= st.best < i
    ensures st.best == -1 ==> st.maxVal == Sentinel
    ensures st.best == -1 <==> forall j :: 0 <= j < i ==> vals[j] <= Sentinel
  {
    if i == 0 then ScanState(-1, Sentinel)
    else
      var st := Scan(vals, i - 1);
      if vals[i - 1] > st.maxVal then ScanState(i - 1, vals[i - 1]) else st
  }

  /** k holds a largest value and every position before it a strictly
      smaller one. */
  predicate IsFirstMax(vals: seq<real>, k: int) {
    && 0 <= k < |vals|
    && (forall j :: 0 <= j < |vals| ==> vals[j] <= vals[k])
    && (forall j :: 0 <= j < k ==> vals[j] < vals[k])
  }

  /** What the scan holds after i values: an upper bound of them, the
      sentinel while nothing beat it, else the value at best, which no
      earlier position reaches. */
  lemma {:induction false} ScanInvariant(vals: seq<real>, i: nat)
    requires i <= |vals|
    ensures var st := Scan(vals, i);
            && (forall j :: 0 <= j < i ==> vals[j] <= st.maxVal)
            && (st.best == -1 ==> st.maxVal == Sentinel)
            && (st.best >= 0 ==> st.maxVal == vals[st.best] && st.maxVal > Sentinel)
            && (st.best >= 0 ==> forall j :: 0 <= j < st.best ==> vals[j] < st.maxVal)
  {
    if i > 0 {
      ScanInvariant(vals, i - 1);
    }
  }

  /** The full scan takes a position exactly when some value beats the
      sentinel, and the position it takes is the first maximum. */
  lemma ScanFindsFirstMax(vals: seq<real>)
    ensures Scan(vals, |vals|).best >= 0 <==> exists k :: 0 <= k < |vals| && vals[k] > Sentinel
    ensures Scan(vals, |vals|).best >= 0 ==> IsFirstMax(vals, Scan(vals, |vals|).best)
  {
    ScanInvariant(vals, |vals|);
  }

  /** There is only one first maximum. */
  lemma FirstMaxUnique(vals: seq<real>, k1: int, k2: int)
    requires IsFirstMax(vals, k1) && IsFirstMax(vals, k2)
    ensures k1 == k2
  {
    assert vals[k1] <= vals[k2] && vals[k2] <= vals[k1];
    assert !(k1 < k2);
    assert !(k2 < k1);
  }
}
