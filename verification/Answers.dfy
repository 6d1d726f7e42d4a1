/** A history of calls that were accepted or refused. */
module Answers {

  /** How many were accepted. */
  function Accepted(answers: seq<bool>): nat
  {
    if answers == [] then 0 else Accepted(answers[..|answers| - 1]) + if answers[|answers| - 1] then 1 else 0
  }

  lemma AcceptedNext(answers: seq<bool>, ok: bool)
    ensures Accepted(answers + [ok]) == Accepted(answers) + if ok then 1 else 0
    ensures forall k :: 0 <= k <= |answers| ==> (answers + [ok])[..k] == answers[..k]
  {
    assert (answers + [ok])[..|answers|] == answers;
  }

  lemma {:induction false} AcceptedMono(answers: seq<bool>, k: nat)
    requires k <= |answers|
    ensures Accepted(answers[..k]) <= Accepted(answers)
  {
    if k < |answers| {
      var init := answers[..|answers| - 1];
      assert init[..k] == answers[..k];
      AcceptedMono(init, k);
    } else {
      assert answers[..k] == answers;
    }
  }

  /** Two histories that stop with the n-th acceptance, one beginning like the other, are the same. */
  lemma SameHistory(a: seq<bool>, b: seq<bool>, n: nat)
    requires Stops(a, n) && Stops(b, n)
    requires forall k :: 0 <= k < |a| && k < |b| ==> a[k] == b[k]
    ensures a == b
  {
    if |a| < |b| { Shorter(a, b, n); }
    if |b| < |a| { Shorter(b, a, n); }
  }

  /** n calls are accepted, the last one among them. */
  predicate Stops(a: seq<bool>, n: nat)
  {
    a != [] && a[|a| - 1] && Accepted(a) == n
  }

  lemma Shorter(a: seq<bool>, b: seq<bool>, n: nat)
    requires Stops(a, n) && |a| < |b| && forall k :: 0 <= k < |a| ==> a[k] == b[k]
    ensures !Stops(b, n)
  {
    var init := b[..|b| - 1];
    assert a == init[..|a|];
    AcceptedMono(init, |a|);
  }
}
