/** examples/cactus-example-discounted-asset-trade/transaction-ethereum.ts: the per-address
    nonce allocator. The stretch after the last await reads the map, corrects the chain's
    answer and writes the map back, so a run is a sequence of (address, answer) pairs in the
    order in which the answers are handled, whatever the order of the calls. */
module Nonce {
  import opened Text

  /** The correction rule; a recorded 0 is falsy in the source and counts as absent. */
  function Corrected(latest: Option<nat>, answer: nat): (nonce: nat)
  {
    if latest.Some? && latest.value != 0 && answer <= latest.value
    then latest.value + 1
    else answer
  }

  function Get(m: map<string, nat>, k: string): (v: Option<nat>)
  {
    if k in m then Some(m[k]) else None
  }

  class NonceAllocator {
    var latest: map<string, nat>

    constructor ()
      ensures latest == map[]
    {
      latest := map[];
    }

    method GetNewNonce(fromAddress: string, answer: nat) returns (nonce: nat)
      modifies this
      ensures nonce == Corrected(Get(old(latest), fromAddress), answer)
      ensures latest == old(latest)[fromAddress := nonce]
    {
      nonce := answer;
      if fromAddress in latest {
        var latestNonce := latest[fromAddress];
        if latestNonce != 0 && nonce <= latestNonce {
          nonce := latestNonce + 1;
        }
      }
      latest := latest[fromAddress := nonce];
    }
  }

  datatype Call = Call(from: string, answer: nat)

  /** The map after a run of the allocator. */
  function After(calls: seq<Call>): (m: map<string, nat>)
  {
    if |calls| == 0 then map[]
    else
      var m := After(calls[..|calls| - 1]);
      var c := calls[|calls| - 1];
      m[c.from := Corrected(Get(m, c.from), c.answer)]
  }

  /** The nonces issued to address `a` in a run, oldest first. */
  function IssuedTo(a: string, calls: seq<Call>): (r: seq<nat>)
  {
    if |calls| == 0 then []
    else
      var before := calls[..|calls| - 1];
      var c := calls[|calls| - 1];
      IssuedTo(a, before) +
      if c.from == a then [Corrected(Get(After(before), a), c.answer)] else []
  }

  function AnswersTo(a: string, calls: seq<Call>): (r: seq<nat>)
  {
    if |calls| == 0 then []
    else
      var c := calls[|calls| - 1];
      AnswersTo(a, calls[..|calls| - 1]) + if c.from == a then [c.answer] else []
  }

  /** What a history of nonces `r` for one address must look like, given the answers. */
  ghost predicate Follows(r: seq<nat>, answers: seq<nat>)
  {
    && |r| == |answers|
    && forall i :: 0 <= i < |r| ==> FollowsAt(r, answers, i)
  }

  ghost predicate FollowsAt(r: seq<nat>, answers: seq<nat>, i: nat)
    requires i < |r| == |answers|
  {
    r[i] == Corrected(if i == 0 then None else Some(r[i - 1]), answers[i])
  }

  /** No interference: whatever other addresses do in between, the nonces of `a` are those
      determined by the answers for `a` alone. */
  lemma {:induction false} Independence(a: string, calls: seq<Call>)
    ensures Follows(IssuedTo(a, calls), AnswersTo(a, calls))
    ensures var r := IssuedTo(a, calls);
            Get(After(calls), a) == if r == [] then None else Some(r[|r| - 1])
  {
    if |calls| > 0 {
      var before := calls[..|calls| - 1];
      Independence(a, before);
      var r, n := IssuedTo(a, calls), AnswersTo(a, calls);
      forall i | 0 <= i < |r|
        ensures FollowsAt(r, n, i)
      {
        if i < |IssuedTo(a, before)| {
          assert FollowsAt(IssuedTo(a, before), AnswersTo(a, before), i);
        }
      }
    }
  }

  lemma {:induction false} StepUp(r: seq<nat>, answers: seq<nat>, i: nat, j: nat)
    requires Follows(r, answers) && i < j < |r|
    ensures r[i] <= r[j] && (r[i] > 0 ==> r[i] < r[j])
    decreases j
  {
    assert FollowsAt(r, answers, j);
    if i < j - 1 {
      StepUp(r, answers, i, j - 1);
    }
  }

  /** Safety for every interleaving: nonces of one address are never below the chain's answer,
      never decrease, and increase strictly from the first positive one on. */
  lemma IssuedSafely(a: string, calls: seq<Call>)
    ensures var r, n := IssuedTo(a, calls), AnswersTo(a, calls);
      && |r| == |n|
      && (forall i :: 0 <= i < |r| ==> r[i] >= n[i])
      && (forall i, j :: 0 <= i < j < |r| ==> r[i] <= r[j] && (r[i] > 0 ==> r[i] < r[j]))
  {
    Independence(a, calls);
    var r, n := IssuedTo(a, calls), AnswersTo(a, calls);
    forall i, j | 0 <= i < j < |r|
      ensures r[i] <= r[j] && (r[i] > 0 ==> r[i] < r[j])
    {
      StepUp(r, n, i, j);
    }
  }

  /** Nonces of one address repeat exactly when its first two answers are both 0: a recorded 0
      is not recognised as an issued nonce. */
  lemma DistinctExactly(a: string, calls: seq<Call>)
    ensures var r, n := IssuedTo(a, calls), AnswersTo(a, calls);
      (forall i, j :: 0 <= i < j < |r| ==> r[i] != r[j]) <==>
      !(|n| >= 2 && n[0] == 0 && n[1] == 0)
  {
    Independence(a, calls);
    var r, n := IssuedTo(a, calls), AnswersTo(a, calls);
    assert |r| >= 1 ==> FollowsAt(r, n, 0);
    assert |r| >= 2 ==> FollowsAt(r, n, 1);
    if |n| >= 2 && n[0] == 0 && n[1] == 0 {
      assert r[0] == r[1];
    } else {
      forall i, j | 0 <= i < j < |r|
        ensures r[i] != r[j]
      {
        StepUp(r, n, i, j);
        if r[i] == 0 && i > 0 {
          StepUp(r, n, 0, i);
          assert r[0] == 0 && n[0] == 0 && n[1] > 0;
          assert r[1] > 0;
          if i > 1 { StepUp(r, n, 1, i); }
        } else if r[i] == 0 {
          assert r[1] > 0;
          if j > 1 { StepUp(r, n, 1, j); }
        }
      }
    }
  }

  /** A schedule the chain could accept: strictly increasing and never below the answers. */
  ghost predicate Schedule(q: seq<nat>, answers: seq<nat>)
  {
    && |q| == |answers|
    && (forall i :: 0 <= i < |q| ==> q[i] >= answers[i])
    && (forall i :: 0 < i < |q| ==> q[i - 1] < q[i])
  }

  lemma {:induction false} BelowEverySchedule(r: seq<nat>, q: seq<nat>, answers: seq<nat>, i: nat)
    requires Follows(r, answers) && Schedule(q, answers) && i < |r|
    ensures r[i] <= q[i]
  {
    assert FollowsAt(r, answers, i);
    if i > 0 {
      BelowEverySchedule(r, q, answers, i - 1);
      assert q[i - 1] < q[i];
    }
  }

  /** Optimality: the allocator stays below every schedule, so it never burns a nonce it could
      have used; and what it issues is a schedule, the least one, unless the first two answers
      are both 0. */
  lemma LeastSchedule(a: string, calls: seq<Call>)
    ensures var r, n := IssuedTo(a, calls), AnswersTo(a, calls);
      && |r| == |n|
      && (Schedule(r, n) <==> !(|n| >= 2 && n[0] == 0 && n[1] == 0))
      && forall q :: Schedule(q, n) ==> forall i :: 0 <= i < |r| ==> r[i] <= q[i]
  {
    IssuedSafely(a, calls);
    DistinctExactly(a, calls);
    Independence(a, calls);
    var r, n := IssuedTo(a, calls), AnswersTo(a, calls);
    if Schedule(r, n) {
      forall i, j | 0 <= i < j < |r|
        ensures r[i] != r[j]
      {
        assert r[j - 1] < r[j];
      }
    }
    forall q, i | Schedule(q, n) && 0 <= i < |r|
      ensures r[i] <= q[i]
    {
      BelowEverySchedule(r, q, n, i);
    }
  }

  /** The nonces fill an interval without gap or repeat. */
  ghost predicate Contiguous(r: seq<nat>)
  {
    forall i :: 0 <= i < |r| ==> r[i] == r[0] + i
  }

  /** What each answer may be, after the nonce issued last: at most one ahead of it, and after a
      nonce 0, which the next call does not see, exactly 1. */
  ghost predicate InStep(r: seq<nat>, answers: seq<nat>)
    requires |r| == |answers|
  {
    forall j :: 0 < j < |r| ==> answers[j] <= r[j - 1] + 1 && (r[j - 1] == 0 ==> answers[j] == 1)
  }

  /** The same without the nonces: no answer may be ahead of the count of calls, and an address
      that starts at 0 must be answered 1 next. */
  ghost predicate KeepsPace(answers: seq<nat>)
  {
    && (forall j :: 0 < j < |answers| ==> answers[j] <= answers[0] + j)
    && (|answers| >= 2 && answers[0] == 0 ==> answers[1] == 1)
  }

  lemma {:induction false} InStepIsContiguous(r: seq<nat>, answers: seq<nat>, i: nat)
    requires Follows(r, answers) && i < |r| && (InStep(r, answers) || KeepsPace(answers))
    ensures r[i] == r[0] + i
  {
    assert FollowsAt(r, answers, i) && FollowsAt(r, answers, 0);
    if i > 0 {
      InStepIsContiguous(r, answers, i - 1);
    }
  }

  lemma ContiguousIsInStep(r: seq<nat>, answers: seq<nat>)
    requires Follows(r, answers) && Contiguous(r)
    ensures InStep(r, answers) && KeepsPace(answers)
  {
    forall j | 0 < j < |r|
      ensures answers[j] <= r[j - 1] + 1 && (r[j - 1] == 0 ==> answers[j] == 1) && answers[j] <= answers[0] + j
    {
      assert FollowsAt(r, answers, j) && FollowsAt(r, answers, 0);
      assert r[j] == r[0] + j && r[j - 1] == r[0] + (j - 1);
    }
    if |r| >= 2 {
      assert FollowsAt(r, answers, 0);
    }
  }

  /** The nonces of an address fill an interval without gap or repeat exactly when every answer
      is in step with the last nonce issued, which can be told from the answers alone. */
  lemma NoGapsExactly(a: string, calls: seq<Call>)
    ensures |IssuedTo(a, calls)| == |AnswersTo(a, calls)|
    ensures Contiguous(IssuedTo(a, calls)) <==> InStep(IssuedTo(a, calls), AnswersTo(a, calls))
    ensures Contiguous(IssuedTo(a, calls)) <==> KeepsPace(AnswersTo(a, calls))
  {
    Independence(a, calls);
    var r, n := IssuedTo(a, calls), AnswersTo(a, calls);
    if InStep(r, n) || KeepsPace(n) {
      forall i | 0 <= i < |r|
        ensures r[i] == r[0] + i
      {
        InStepIsContiguous(r, n, i);
      }
    }
    if Contiguous(r) {
      ContiguousIsInStep(r, n);
    }
  }

  // ----- the allocator through a run -----

  /** Of the nonces issued, one per call, those issued to `a`. */
  function Share(a: string, calls: seq<Call>, nonces: seq<nat>): (r: seq<nat>)
    requires |nonces| == |calls|
  {
    if |calls| == 0 then []
    else
      var n := |calls| - 1;
      Share(a, calls[..n], nonces[..n]) + if calls[n].from == a then [nonces[n]] else []
  }

  /** A fresh allocator handling these answers in this order issues to every address the nonces
      that the lemmas above are about. */
  method Issue(calls: seq<Call>) returns (nonces: seq<nat>)
    ensures |nonces| == |calls|
    ensures forall a :: Share(a, calls, nonces) == IssuedTo(a, calls)
  {
    var allocator := new NonceAllocator();
    nonces := [];
    for i := 0 to |calls|
      invariant |nonces| == i && allocator.latest == After(calls[..i])
      invariant forall a :: Share(a, calls[..i], nonces) == IssuedTo(a, calls[..i])
    {
      ghost var before := nonces;
      var nonce := allocator.GetNewNonce(calls[i].from, calls[i].answer);
      nonces := nonces + [nonce];
      assert calls[..i + 1][..i] == calls[..i] && nonces[..i] == before;
    }
    assert calls[..|calls|] == calls;
  }
}
