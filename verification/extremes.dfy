/** Greatest and least keys of a finite map of price levels. */
module Extremes {

  /** A non-empty set has an element. */
  lemma Inhabited(s: set<int>)
    requires |s| > 0
    ensures exists x :: x in s
  {
    if forall x :: x !in s {
      assert false;
    }
  }

  lemma {:induction false} ExtremesExist(keys: set<int>)
    requires |keys| > 0
    ensures exists k :: k in keys && forall j :: j in keys ==> j <= k
    ensures exists k :: k in keys && forall j :: j in keys ==> k <= j
    decreases |keys|
  {
    Inhabited(keys);
    var x :| x in keys;
    if |keys| > 1 {
      var rest := keys - {x};
      ExtremesExist(rest);
      var hi :| hi in rest && forall j :: j in rest ==> j <= hi;
      var lo :| lo in rest && forall j :: j in rest ==> lo <= j;
      var hi' := if x <= hi then hi else x;
      var lo' := if lo <= x then lo else x;
      assert forall j :: j in keys ==> j == x || j in rest;
      assert hi' in keys && forall j :: j in keys ==> j <= hi';
      assert lo' in keys && forall j :: j in keys ==> lo' <= j;
    } else {
      assert forall j :: j in keys ==> j == x;
    }
  }

  function MaxKey(keys: set<int>): (k: int)
    requires |keys| > 0
    ensures k in keys && forall j :: j in keys ==> j <= k
  {
    ExtremesExist(keys);
    var k :| k in keys && forall j :: j in keys ==> j <= k;
    k
  }

  function MinKey(keys: set<int>): (k: int)
    requires |keys| > 0
    ensures k in keys && forall j :: j in keys ==> k <= j
  {
    ExtremesExist(keys);
    var k :| k in keys && forall j :: j in keys ==> k <= j;
    k
  }
}
