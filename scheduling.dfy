/**
 * The order in which the concurrently launched tasks of one firing finish.
 *
 * The scheduler is an oracle: `picks[k]` modulo the number of tasks still running says which running
 * task finishes next. Every sequence of picks gives a permutation of the launched tasks
 * (CompletionOrder's ensures), and every permutation is given by some sequence of picks
 * (EveryOrderIsReachable), so quantifying over picks is quantifying over all interleavings.
 */
module Scheduling {

  /** The launch indices 0, 1, ..., n - 1. */
  function Range(n: nat): (r: seq<nat>)
    ensures |r| == n
    ensures forall i :: 0 <= i < n ==> r[i] == i
  {
    seq(n, i => i)
  }

  /** Which of n running tasks the scheduler lets finish next. */
  function Pick(picks: seq<nat>, n: nat): (p: nat)
    requires n > 0
    ensures p < n
  {
    if picks == [] then 0 else Wrap(picks[0], n)
  }

  /** x modulo n, by repeated subtraction. */
  function Wrap(x: nat, n: nat): (r: nat)
    requires n > 0
    ensures r < n
    ensures x < n ==> r == x
  {
    if x < n then x else Wrap(x - n, n)
  }

  function Rest(picks: seq<nat>): seq<nat>
  {
    if picks == [] then [] else picks[1..]
  }

  /** Removes the element at position p. */
  function Without(s: seq<nat>, p: nat): (r: seq<nat>)
    requires p < |s|
    ensures |r| == |s| - 1
    ensures multiset(r) + multiset{s[p]} == multiset(s)
  {
    assert s == s[..p] + [s[p]] + s[p + 1..];
    s[..p] + s[p + 1..]
  }

  /** The tasks of `pending` in the order they finish. */
  function CompletionOrder(picks: seq<nat>, pending: seq<nat>): (order: seq<nat>)
    ensures |order| == |pending|
    ensures multiset(order) == multiset(pending)
    decreases |pending|
  {
    if pending == [] then []
    else
      var p := Pick(picks, |pending|);
      [pending[p]] + CompletionOrder(Rest(picks), Without(pending, p))
  }

  /** The completion order of the n tasks launched by one firing: a permutation of 0..n-1. */
  function FiringOrder(picks: seq<nat>, n: nat): (order: seq<nat>)
    ensures |order| == n
    ensures forall k :: 0 <= k < n ==> order[k] < n
    ensures forall i :: 0 <= i < n ==> multiset(order)[i] == 1
  {
    var order := CompletionOrder(picks, Range(n));
    RangeMultiplicity(n);
    assert |order| == |multiset(order)| == n;
    forall k | 0 <= k < n ensures order[k] < n {
      assert order[k] in multiset(Range(n));
    }
    order
  }

  /** Each launch index occurs exactly once in Range(n). */
  lemma {:induction false} RangeMultiplicity(n: nat)
    ensures forall i :: 0 <= i < n ==> multiset(Range(n))[i] == 1
    ensures forall i :: i in multiset(Range(n)) ==> i < n
  {
    if n > 0 {
      RangeMultiplicity(n - 1);
      assert Range(n) == Range(n - 1) + [n - 1];
    }
  }

  /** Removing the first element of two equal multisets leaves equal multisets. */
  lemma RemoveSame(order: seq<nat>, pending: seq<nat>, p: nat)
    requires p < |pending| && |order| > 0 && pending[p] == order[0]
    requires multiset(order) == multiset(pending)
    ensures multiset(order[1..]) == multiset(Without(pending, p))
  {
    var x := order[0];
    assert order == [x] + order[1..];
    assert multiset(order[1..]) + multiset{x} == multiset(order);
    assert multiset(Without(pending, p)) + multiset{x} == multiset(pending);
    assert multiset(order[1..]) == (multiset(order[1..]) + multiset{x}) - multiset{x};
    assert multiset(Without(pending, p)) == (multiset(Without(pending, p)) + multiset{x}) - multiset{x};
  }

  /** The first position of x in s. */
  function IndexOf(s: seq<nat>, x: nat): (p: nat)
    requires x in s
    ensures p < |s| && s[p] == x
  {
    if s[0] == x then 0 else 1 + IndexOf(s[1..], x)
  }

  /** The position in `pending` of the task that finishes first in `order`. */
  lemma FirstPosition(order: seq<nat>, pending: seq<nat>) returns (p: nat)
    requires multiset(order) == multiset(pending) && pending != []
    ensures p < |pending| && order != [] && pending[p] == order[0]
    ensures multiset(order[1..]) == multiset(Without(pending, p))
  {
    assert order != [] by {
      assert pending[0] in multiset(pending);
    }
    assert order[0] in multiset(pending);
    p := IndexOf(pending, order[0]);
    RemoveSame(order, pending, p);
  }

  /** A first pick of p lets the task at position p finish first. */
  lemma CompletionOrderCons(p: nat, picks: seq<nat>, pending: seq<nat>)
    requires p < |pending|
    ensures CompletionOrder([p] + picks, pending) == [pending[p]] + CompletionOrder(picks, Without(pending, p))
  {
    assert Pick([p] + picks, |pending|) == p;
    assert Rest([p] + picks) == picks;
  }

  /**
   * Completeness of the oracle: every permutation of the pending tasks is the completion order
   * of some sequence of picks.
   */
  lemma {:induction false} EveryOrderIsReachable(order: seq<nat>, pending: seq<nat>) returns (picks: seq<nat>)
    requires multiset(order) == multiset(pending)
    ensures CompletionOrder(picks, pending) == order
    decreases |pending|
  {
    if pending == [] {
      assert |order| == |multiset(order)| == 0;
      picks := [];
    } else {
      var p := FirstPosition(order, pending);
      var picks' := EveryOrderIsReachable(order[1..], Without(pending, p));
      picks := [p] + picks';
      CompletionOrderCons(p, picks', pending);
      assert order == [order[0]] + order[1..];
    }
  }
}
