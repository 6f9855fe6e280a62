/** Parts picked from a sequence in its order. */
module Selections {
  /** Positions below n, ascending. */
  ghost predicate Ascends(at: seq<nat>, n: nat) {
    && (forall k :: 0 <= k < |at| ==> at[k] < n)
    && forall j, k :: 0 <= j < k < |at| ==> at[j] < at[k]
  }

  ghost predicate Picked<T>(whole: seq<T>, part: seq<T>, at: seq<nat>) {
    Ascends(at, |whole|) && |part| == |at| && forall k :: 0 <= k < |at| ==> part[k] == whole[at[k]]
  }

  /** The same positions behind one more element. */
  function Later(at: seq<nat>): seq<nat> { seq(|at|, k requires 0 <= k < |at| => at[k] + 1) }

  function Behind(picked: bool, at: seq<nat>): seq<nat> { (if picked then [0] else []) + Later(at) }

  lemma BehindIs(picked: bool, at: seq<nat>, k: nat)
    requires k < |at|
    ensures |Behind(picked, at)| == |at| + if picked then 1 else 0
    ensures Behind(picked, at)[k + if picked then 1 else 0] == at[k] + 1
  {
  }

  lemma BehindAscends(picked: bool, at: seq<nat>, n: nat)
    requires Ascends(at, n)
    ensures Ascends(Behind(picked, at), n + 1)
    ensures |Behind(picked, at)| == |at| + if picked then 1 else 0
    ensures picked ==> Behind(picked, at)[0] == 0
  {
  }

  lemma BehindMember(picked: bool, at: seq<nat>, i: nat)
    ensures i in Behind(picked, at) <==> if i == 0 then picked else i - 1 in at
  {
    if i > 0 && i - 1 in at {
      var k: nat :| k < |at| && at[k] == i - 1;
      BehindIs(picked, at, k);
    }
  }

  lemma BehindHolds(picked: bool, at: seq<nat>, n: nat)
    requires Ascends(at, n)
    ensures Ascends(Behind(picked, at), n + 1)
    ensures |Behind(picked, at)| == |at| + if picked then 1 else 0
    ensures picked ==> Behind(picked, at)[0] == 0
    ensures forall i: nat :: i in Behind(picked, at) <==> if i == 0 then picked else i - 1 in at
  {
    hide *;
    BehindAscends(picked, at, n);
    forall i: nat
      ensures i in Behind(picked, at) <==> if i == 0 then picked else i - 1 in at
    {
      BehindMember(picked, at, i);
    }
  }

  lemma PickedBehind<T>(first: T, whole: seq<T>, part: seq<T>, at: seq<nat>, picked: bool)
    requires Picked(whole, part, at)
    ensures Picked([first] + whole, (if picked then [first] else []) + part, Behind(picked, at))
  {
    BehindHolds(picked, at, |whole|);
  }

  lemma PickedAscends<T>(whole: seq<T>, part: seq<T>, at: seq<nat>)
    requires Picked(whole, part, at)
    ensures Ascends(at, |whole|) && |part| == |at|
  {
  }

  lemma NothingPicked<T>(whole: seq<T>)
    ensures Picked(whole, [], [])
  {
  }

  lemma PickedMore<T>(whole: seq<T>, part: seq<T>, at: seq<nat>, last: T, picked: bool)
    requires Picked(whole, part, at)
    ensures Picked(whole + [last], part + (if picked then [last] else []), at + if picked then [|whole|] else [])
    ensures forall i: nat :: i in at + (if picked then [|whole|] else []) <==> i in at || (picked && i == |whole|)
    ensures forall i: nat :: i in at ==> i < |whole|
  {
  }

  lemma AllPicked<T>(whole: seq<T>)
    ensures Picked(whole, whole, seq(|whole|, i requires 0 <= i < |whole| => i))
  {
  }
}
