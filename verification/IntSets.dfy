/** Least and greatest element of a set of integers: `begin()` and `rbegin()` of an ordered container. */
module IntSets {

  predicate IsLeast(s: set<int>, m: int) {
    m in s && forall x :: x in s ==> m <= x
  }

  predicate IsGreatest(s: set<int>, m: int) {
    m in s && forall x :: x in s ==> x <= m
  }

  lemma Member(s: set<int>) returns (x: int)
    requires s != {}
    ensures x in s
  {
    assert (forall y :: y !in s) ==> s == {};
    x :| x in s;
  }

  lemma {:induction false} LeastExists(s: set<int>) returns (m: int)
    requires s != {}
    ensures IsLeast(s, m)
    decreases s
  {
    m := Member(s);
    var rest := s - {m};
    assert forall x :: x in s <==> x == m || x in rest;
    if rest != {} {
      var r := LeastExists(rest);
      m := if m <= r then m else r;
    }
  }

  lemma {:induction false} GreatestExists(s: set<int>) returns (m: int)
    requires s != {}
    ensures IsGreatest(s, m)
    decreases s
  {
    m := Member(s);
    var rest := s - {m};
    assert forall x :: x in s <==> x == m || x in rest;
    if rest != {} {
      var r := GreatestExists(rest);
      m := if m >= r then m else r;
    }
  }

  lemma HasLeast(s: set<int>)
    requires s != {}
    ensures exists m :: IsLeast(s, m)
  {
    var m := LeastExists(s);
  }

  lemma HasGreatest(s: set<int>)
    requires s != {}
    ensures exists m :: IsGreatest(s, m)
  {
    var m := GreatestExists(s);
  }

  function MinOf(s: set<int>): (m: int)
    requires s != {}
    ensures m in s && forall x :: x in s ==> m <= x
  {
    HasLeast(s);
    var m :| m in s && IsLeast(s, m);
    m
  }

  function MaxOf(s: set<int>): (m: int)
    requires s != {}
    ensures m in s && forall x :: x in s ==> x <= m
  {
    HasGreatest(s);
    var m :| m in s && IsGreatest(s, m);
    m
  }

  lemma MinIs(s: set<int>, m: int)
    requires IsLeast(s, m)
    ensures MinOf(s) == m
  {
  }

  lemma MaxIs(s: set<int>, m: int)
    requires IsGreatest(s, m)
    ensures MaxOf(s) == m
  {
  }
}
