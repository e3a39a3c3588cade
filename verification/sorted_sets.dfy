/** Listing a finite set of integers in ascending order, as Kotlin's
    `toSortedMap()` orders the keys of a map. */
module SortedSets {

  /** The least element of a non-empty set. */
  function SetMin(s: set<int>): (m: int)
    requires s != {}
    ensures m in s && forall x :: x in s ==> m <= x
  {
    SetHasMin(s);
    var m :| m in s && forall x :: x in s ==> m <= x;
    m
  }

  lemma SetHasMin(keys: set<int>)
    requires keys != {}
    ensures exists m :: m in keys && forall x :: x in keys ==> m <= x
  {
    var m := LeastElement(keys);
  }

  lemma {:induction false} LeastElement(keys: set<int>) returns (least: int)
    requires keys != {}
    ensures least in keys && forall x :: x in keys ==> least <= x
    decreases |keys|
  {
    // `keys != {}` alone does not hand the solver a member to pick; a set
    // none of whose candidates is a member would be `{}`, so this branch is dead.
    if forall z :: z !in keys {
      assert false;
    }
    var y :| y in keys;
    if keys == {y} {
      least := y;
    } else {
      var rest := keys - {y};
      var m := LeastElement(rest);
      least := if y < m then y else m;
      forall x | x in keys
        ensures least <= x
      {
        if x != y {
          assert x in rest;
        }
      }
    }
  }

  /** The keys of a table in ascending order (`toSortedMap()`). */
  function SortedKeys(s: set<int>): (ks: seq<int>)
    ensures forall i, j :: 0 <= i < j < |ks| ==> ks[i] < ks[j]
    ensures forall x :: x in ks <==> x in s
    decreases |s|
  {
    if s == {} then []
    else
      var m := SetMin(s);
      var rest := SortedKeys(s - {m});
      assert forall x :: x in rest ==> m < x;
      [m] + rest
  }
}
