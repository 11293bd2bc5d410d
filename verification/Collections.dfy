/** Stock facts about values of several modules. */
module Collections {
  datatype Option<+T> = None | Some(value: T)

  function Max(a: int, b: int): int {
    if a >= b then a else b
  }

  function Reverse<T>(s: seq<T>): (r: seq<T>)
    ensures |r| == |s| && forall i :: 0 <= i < |r| ==> r[i] == s[|s| - 1 - i]
  {
    seq(|s|, i requires 0 <= i < |s| => s[|s| - 1 - i])
  }

  lemma SubsetSize<T>(a: set<T>, b: set<T>)
    requires a <= b
    ensures |a| <= |b|
    ensures |a| == |b| ==> a == b
  {
    assert b == a + (b - a);
  }

  /** A non-empty set has an element with the least key. */
  lemma {:induction false} LeastExists<T>(s: set<T>, key: T -> int)
    requires s != {}
    ensures exists x :: x in s && forall y :: y in s ==> key(x) <= key(y)
    decreases |s|
  {
    var x :| x in s;
    var rest := s - {x};
    if rest == {} {
      assert s == {x};
    } else {
      LeastExists(rest, key);
      var m :| m in rest && forall y :: y in rest ==> key(m) <= key(y);
      var least := if key(x) <= key(m) then x else m;
      assert forall y :: y in s ==> y == x || y in rest;
      assert least in s && forall y :: y in s ==> key(least) <= key(y);
    }
  }
}
