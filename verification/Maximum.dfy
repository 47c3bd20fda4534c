/** The maximum of a finite set of numbers, as a database aggregate gives it. */
module Maximum {

  /** The database's MAX, with 0 for no rows. */
  function MaxOrZero(s: set<nat>): (m: nat)
    ensures s == {} ==> m == 0
    ensures s != {} ==> m in s && forall x :: x in s ==> x <= m
  {
    if s == {} then 0
    else
      MaxExists(s);
      var m: nat :| IsMax(s, m);
      m
  }

  predicate IsMax(s: set<nat>, m: nat) { m in s && forall x :: x in s ==> x <= m }

  lemma {:induction false} MaxExists(s: set<nat>)
    requires s != {}
    ensures exists m :: IsMax(s, m)
  {
    var y :| y in s;
    var rest := s - {y};
    if rest == {} {
      assert s == {y};
      assert IsMax(s, y);
    } else {
      MaxExists(rest);
      var m :| IsMax(rest, m);
      assert forall x :: x in s ==> x == y || x in rest;
      assert IsMax(s, if y > m then y else m);
    }
  }
}
