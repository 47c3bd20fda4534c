/** Outcomes of calls that may fail, taken one after another from a list the caller does not control. */
module Outcomes {

  /** The next call succeeds; with no outcomes left, every call does. */
  predicate Succeeds(outcomes: seq<bool>) { outcomes == [] || outcomes[0] }

  /** The outcomes after n calls. */
  function Rest(outcomes: seq<bool>, n: nat): seq<bool> { if n <= |outcomes| then outcomes[n..] else [] }

  /** None of the next n calls fails. */
  predicate NoFailure(outcomes: seq<bool>, n: nat) { forall i :: 0 <= i < n && i < |outcomes| ==> outcomes[i] }

  lemma OneMore(outcomes: seq<bool>, n: nat)
    ensures NoFailure(outcomes, n + 1) <==> NoFailure(outcomes, n) && Succeeds(Rest(outcomes, n))
    ensures Rest(Rest(outcomes, n), 1) == Rest(outcomes, n + 1)
  {
    if n < |outcomes| { assert Rest(outcomes, n)[0] == outcomes[n]; }
  }

  lemma {:induction false} More(outcomes: seq<bool>, m: nat, n: nat)
    ensures NoFailure(outcomes, m + n) <==> NoFailure(outcomes, m) && NoFailure(Rest(outcomes, m), n)
    ensures Rest(Rest(outcomes, m), n) == Rest(outcomes, m + n)
  {
    if n > 0 {
      hide NoFailure, Rest, Succeeds;
      More(outcomes, m, n - 1);
      OneMore(outcomes, m + n - 1);
      OneMore(Rest(outcomes, m), n - 1);
    } else {
      assert Rest(Rest(outcomes, m), 0) == Rest(outcomes, m);
    }
  }

  lemma TwoCalls(outcomes: seq<bool>)
    ensures NoFailure(outcomes, 2) <==> Succeeds(outcomes) && Succeeds(Rest(outcomes, 1))
    ensures Rest(Rest(outcomes, 1), 1) == Rest(outcomes, 2)
  {
  }

  lemma ThreeCalls(o: seq<bool>)
    ensures NoFailure(o, 3) <==> Succeeds(o) && Succeeds(Rest(o, 1)) && Succeeds(Rest(Rest(o, 1), 1))
    ensures Rest(Rest(Rest(o, 1), 1), 1) == Rest(o, 3)
  {
    OneMore(o, 0);
    OneMore(o, 1);
    OneMore(o, 2);
    assert Rest(o, 0) == o;
  }

  lemma NoneLeft(outcomes: seq<bool>)
    ensures outcomes == [] ==> NoFailure(outcomes, 2) && Rest(outcomes, 2) == []
  {
  }

  /** What is left after up to n calls that stop at the first failure. */
  function Left(outcomes: seq<bool>, n: nat): seq<bool> {
    if n == 0 then outcomes else if Succeeds(outcomes) then Left(Rest(outcomes, 1), n - 1) else Rest(outcomes, 1)
  }

  lemma {:induction false} LeftAll(outcomes: seq<bool>, n: nat)
    requires NoFailure(outcomes, n)
    ensures Left(outcomes, n) == Rest(outcomes, n)
  {
    if n > 0 {
      More(outcomes, 1, n - 1);
      assert Rest(outcomes, 0) == outcomes;
      OneMore(outcomes, 0);
      LeftAll(Rest(outcomes, 1), n - 1);
    }
  }

  /** At most one of the calls to come fails. */
  predicate OneFailure(outcomes: seq<bool>) {
    forall i, j :: 0 <= i < j < |outcomes| ==> outcomes[i] || outcomes[j]
  }

  /** After the failure, everything succeeds. */
  lemma AfterTheFailure(outcomes: seq<bool>, m: nat, n: nat)
    requires OneFailure(outcomes) && !NoFailure(outcomes, m)
    ensures NoFailure(Rest(outcomes, m), n)
  {
    var i :| 0 <= i < m && i < |outcomes| && !outcomes[i];
    forall j | 0 <= j < n && j < |Rest(outcomes, m)| ensures Rest(outcomes, m)[j] {
      assert Rest(outcomes, m)[j] == outcomes[m + j];
    }
  }
}
