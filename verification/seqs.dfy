/** Order-preserving selection from a sequence, shared by the substitution
    probe (which keeps the valid candidates) and the second construction step
    (which keeps the tuples nobody handled). */
module Seqs {
  import opened Wrappers

  /** Runs side-effect-free steps in order: the first failure wins, otherwise
      every step's value is collected. */
  function Collect<T, E>(steps: seq<Result<T, E>>): (r: Result<seq<T>, E>)
    ensures r.Success? <==> forall i :: 0 <= i < |steps| ==> steps[i].Success?
    ensures r.Success? ==> |r.value| == |steps| && forall i :: 0 <= i < |steps| ==> r.value[i] == steps[i].value
    ensures r.Failure? ==>
      exists i :: 0 <= i < |steps| && steps[i] == Failure(r.error) && forall j :: 0 <= j < i ==> steps[j].Success?
  {
    if |steps| == 0 then Success([])
    else if steps[0].Failure? then Failure(steps[0].error)
    else
      var rest := Collect(steps[1..]);
      assert forall i :: 1 <= i < |steps| ==> steps[i] == steps[1..][i - 1];
      if rest.Failure? then
        ghost var k :| 0 <= k < |steps[1..]| && steps[1..][k] == Failure(rest.error)
                       && forall j :: 0 <= j < k ==> steps[1..][j].Success?;
        assert steps[k + 1] == Failure(rest.error);
        Failure(rest.error)
      else Success([steps[0].value] + rest.value)
  }

  /** The indices `i >= from` with `keep[i]`, in increasing order. */
  function TrueIndices(keep: seq<bool>, from: nat): (idx: seq<nat>)
    requires from <= |keep|
    ensures forall k :: 0 <= k < |idx| ==> from <= idx[k] < |keep| && keep[idx[k]]
    ensures forall k, l :: 0 <= k < l < |idx| ==> idx[k] < idx[l]
    ensures forall i :: from <= i < |keep| && keep[i] ==> i in idx
    ensures |idx| == 0 ==> forall i :: from <= i < |keep| ==> !keep[i]
    ensures |idx| > 0 ==> forall j :: from <= j < idx[0] ==> !keep[j]
    decreases |keep| - from
  {
    if from == |keep| then []
    else
      var rest := TrueIndices(keep, from + 1);
      if keep[from] then [from] + rest else rest
  }

  /** The elements of `s` at the positions where `keep` holds, in their original order. */
  function Select<T>(s: seq<T>, keep: seq<bool>): (r: seq<T>)
    requires |keep| == |s|
    ensures |r| == |TrueIndices(keep, 0)|
    ensures forall k :: 0 <= k < |r| ==> r[k] == s[TrueIndices(keep, 0)[k]]
    ensures forall i :: 0 <= i < |s| && keep[i] ==> s[i] in r
    ensures |r| == 0 <==> forall i :: 0 <= i < |s| ==> !keep[i]
    ensures |r| > 0 ==> exists i :: 0 <= i < |s| && keep[i] && r[0] == s[i]
                                    && forall j :: 0 <= j < i ==> !keep[j]
  {
    var idx := TrueIndices(keep, 0);
    var r := seq(|idx|, k requires 0 <= k < |idx| => s[idx[k]]);
    assert forall i :: 0 <= i < |s| && keep[i] ==> exists k :: 0 <= k < |idx| && idx[k] == i && r[k] == s[i];
    r
  }

  /** An element is selected exactly when it occurs at some kept position. */
  lemma SelectMembers<T>(s: seq<T>, keep: seq<bool>)
    requires |keep| == |s|
    ensures forall x :: x in Select(s, keep) <==> exists i :: 0 <= i < |s| && keep[i] && s[i] == x
  {
    var r := Select(s, keep);
    var idx := TrueIndices(keep, 0);
    forall x | x in r
      ensures exists i :: 0 <= i < |s| && keep[i] && s[i] == x
    {
      var k :| 0 <= k < |r| && r[k] == x;
      assert s[idx[k]] == x;
    }
  }

  /** The position of the step whose failure `Collect` reports. */
  lemma CollectFailureIndex<T, E>(steps: seq<Result<T, E>>) returns (i: nat)
    requires Collect(steps).Failure?
    ensures i < |steps| && steps[i] == Failure(Collect(steps).error)
    ensures forall j :: 0 <= j < i ==> steps[j].Success?
  {
    i :| 0 <= i < |steps| && steps[i] == Failure(Collect(steps).error) && forall j :: 0 <= j < i ==> steps[j].Success?;
  }
}
