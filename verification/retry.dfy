/** The `retry` decorator of gt521f32/gt521f32.py: call a boolean action up
    to `count` times, stop at the first True, give False when every call
    gave False. An exception inside the action propagates at once.

    An action is a state transformer: it takes the driver state and returns
    its result together with the state after it, so the number of calls made
    is visible in the state that comes back. */
module Retry {
  import opened Basics

  /** The default `count` of the decorator. */
  const DefaultCount: nat := 3

  /** `retry(func, count)(...)` run from state s. */
  function Retry<S, E>(act: S -> (Result<bool, E>, S), count: int, s: S): (Result<bool, E>, S)
    decreases count
  {
    if count <= 0 then (Ok(false), s)
    else
      var (res, s') := act(s);
      if res == Ok(false) then Retry(act, count - 1, s') else (res, s')
  }

  /** The reference reading: n calls of the action one after the other,
      whatever they return, with the results in order and the final state. */
  function Calls<S, E>(act: S -> (Result<bool, E>, S), n: nat, s: S): (r: (seq<Result<bool, E>>, S))
    ensures |r.0| == n
  {
    if n == 0 then ([], s)
    else
      var (res, s') := act(s);
      var (rest, t) := Calls(act, n - 1, s');
      ([res] + rest, t)
  }

  /** The first i calls all returned False. */
  predicate FalseRun<E>(outs: seq<Result<bool, E>>, i: nat)
    requires i <= |outs|
  {
    forall j :: 0 <= j < i ==> outs[j] == Ok(false)
  }

  /** Retry makes calls until the first call that does not return False,
      and at most `count` of them: when call k (k < count) is the first one
      that does not return False, Retry returns its result and the state
      after k + 1 calls; when the first `count` calls all return False,
      Retry returns False and the state after `count` calls. */
  lemma {:induction false} RetryCalls<S, E>(act: S -> (Result<bool, E>, S), count: nat, s: S, k: nat)
    requires k <= count
    requires FalseRun(Calls(act, count, s).0, k)
    requires k < count ==> Calls(act, count, s).0[k] != Ok(false)
    ensures k < count ==> Retry(act, count, s) == (Calls(act, count, s).0[k], Calls(act, k + 1, s).1)
    ensures k == count ==> Retry(act, count, s) == (Ok(false), Calls(act, count, s).1)
    decreases count
  {
    if count > 0 {
      var (res, s') := act(s);
      var outs := Calls(act, count, s).0;
      assert outs[0] == res;
      assert outs[1..] == Calls(act, count - 1, s').0;
      if k > 0 {
        var rest := Calls(act, count - 1, s').0;
        assert FalseRun(rest, k - 1) by {
          forall j | 0 <= j < k - 1
            ensures rest[j] == Ok(false)
          {
            assert outs[j + 1] == Ok(false);
          }
        }
        RetryCalls(act, count - 1, s', k - 1);
        if k < count {
          assert Calls(act, k + 1, s).1 == Calls(act, k, s').1;
        }
      }
    }
  }

  /** Retry returns True exactly when one of the first `count` calls returns
      True after only Falses, and False exactly when `count` calls all return
      False. */
  lemma RetryOutcome<S, E>(act: S -> (Result<bool, E>, S), count: nat, s: S)
    ensures Retry(act, count, s).0 == Ok(false) <==> FalseRun(Calls(act, count, s).0, count)
    ensures Retry(act, count, s).0 == Ok(true) <==>
              exists k :: 0 <= k < count && FalseRun(Calls(act, count, s).0, k) &&
                          Calls(act, count, s).0[k] == Ok(true)
  {
    var outs := Calls(act, count, s).0;
    var k := FirstNotFalse(outs);
    RetryCalls(act, count, s, k);
    if k < count && outs[k] == Ok(true) {
      assert FalseRun(outs, k);
    }
    forall k' | 0 <= k' < count && FalseRun(outs, k') && outs[k'] == Ok(true)
      ensures k' == k
    {
    }
  }

  /** Position of the first result that is not False, or the length. */
  function FirstNotFalse<E>(outs: seq<Result<bool, E>>): (k: nat)
    ensures k <= |outs| && FalseRun(outs, k)
    ensures k < |outs| ==> outs[k] != Ok(false)
  {
    if outs == [] then 0
    else if outs[0] != Ok(false) then 0
    else
      var k := FirstNotFalse(outs[1..]);
      assert forall j :: 0 < j <= k ==> outs[j] == outs[1..][j - 1];
      k + 1
  }

  /** Retry never makes more than `count` calls: its final state is the state
      after some number of calls between one and `count` (none when count is 0). */
  lemma RetryBound<S, E>(act: S -> (Result<bool, E>, S), count: nat, s: S)
    ensures exists n :: (count == 0 ==> n == 0) && (count > 0 ==> 1 <= n) && n <= count &&
                        Retry(act, count, s).1 == Calls(act, n, s).1
  {
    var outs := Calls(act, count, s).0;
    var k := FirstNotFalse(outs);
    RetryCalls(act, count, s, k);
    if k < count {
      assert Retry(act, count, s).1 == Calls(act, k + 1, s).1;
    } else {
      assert Retry(act, count, s).1 == Calls(act, count, s).1;
    }
  }

  /** Every one of the first `count` calls returns False. */
  ghost predicate AllFalse<S, E>(act: S -> (Result<bool, E>, S), count: nat, s: S)
  {
    FalseRun(Calls(act, count, s).0, count)
  }

  /** Among the first `count` calls, one returns True after only Falses. */
  ghost predicate TrueAfterFalses<S, E>(act: S -> (Result<bool, E>, S), count: nat, s: S)
  {
    exists k :: 0 <= k < count && FalseRun(Calls(act, count, s).0, k) && Calls(act, count, s).0[k] == Ok(true)
  }

  /** t is the state after between one and `count` calls (none when count is 0). */
  ghost predicate AfterAtMost<S, E>(act: S -> (Result<bool, E>, S), count: nat, s: S, t: S)
  {
    exists n :: (count == 0 ==> n == 0) && (count > 0 ==> 1 <= n) && n <= count && t == Calls(act, n, s).1
  }

  /** RetryOutcome and RetryBound in one statement. */
  lemma RetrySummary<S, E>(act: S -> (Result<bool, E>, S), count: nat, s: S)
    ensures Retry(act, count, s).0 == Ok(false) <==> AllFalse(act, count, s)
    ensures Retry(act, count, s).0 == Ok(true) <==> TrueAfterFalses(act, count, s)
    ensures AfterAtMost(act, count, s, Retry(act, count, s).1)
  {
    RetryOutcome(act, count, s);
    RetryBound(act, count, s);
  }
}
