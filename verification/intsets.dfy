/**
 Small facts about finite sets of integers used by the solver: the element
 of a one-element set, and the least and greatest elements of a non-empty
 set.
 */
module IntSets {

  /** A one-element set holds nothing but its element. */
  lemma SingletonElements(s: set<int>)
    requires |s| == 1
    ensures exists x :: x in s
    ensures forall x, y :: x in s && y in s ==> x == y
  {
    if forall x :: x !in s {
      assert false;
    }
    forall x, y | x in s && y in s
      ensures x == y
    {
      assert |s - {x}| == 0;
      assert y in s - {x} || y == x;
    }
  }

  /** The element of a one-element set. */
  function Only(s: set<int>): (d: int)
    requires |s| == 1
    ensures s == {d}
  {
    SingletonElements(s);
    var d :| d in s;
    assert forall x :: x in s <==> x == d;
    d
  }

  /** A non-empty set has an element. */
  lemma Inhabited(s: set<int>)
    requires s != {}
    ensures exists y :: y in s
  {
    if forall y :: y !in s {
      assert false;
    }
  }

  /** A non-empty set of integers has a least element. */
  lemma {:induction false} HasLeast(s: set<int>)
    requires s != {}
    ensures exists m :: m in s && forall x :: x in s ==> m <= x
    decreases |s|
  {
    Inhabited(s);
    var y :| y in s;
    var rest := s - {y};
    if rest == {} {
      forall x | x in s
        ensures y <= x
      {
        assert x !in rest;
      }
    } else {
      HasLeast(rest);
      var m :| m in rest && forall x :: x in rest ==> m <= x;
      var least := if y < m then y else m;
      forall x | x in s
        ensures least <= x
      {
        if x != y {
          assert x in rest;
        }
      }
      assert least in s;
    }
  }

  /** The least element of a non-empty set. */
  function MinOf(s: set<int>): (m: int)
    requires s != {}
    ensures m in s && forall x :: x in s ==> m <= x
  {
    HasLeast(s);
    var m :| m in s && forall x :: x in s ==> m <= x;
    m
  }

  /** The greatest element of a non-empty set: what is left once the smaller elements are taken out one by one. */
  function MaxOf(s: set<int>): (m: int)
    requires s != {}
    ensures m in s && forall x :: x in s ==> x <= m
    decreases |s|
  {
    var least := MinOf(s);
    var rest := s - {least};
    if rest == {} then
      assert forall x :: x in s ==> x == least by {
        forall x | x in s ensures x == least { assert x !in rest; }
      }
      least
    else
      var m := MaxOf(rest);
      assert forall x :: x in s ==> x <= m by {
        forall x | x in s ensures x <= m { if x != least { assert x in rest; } }
      }
      m
  }
}
