/** The priority queue the path planners pop from (`heapq`). The heap is
    modelled as a multiset from which an element of least key is taken;
    which of several elements of equal key the heap hands out is left open. */
module Frontier {

  lemma {:induction false} MinExists<T>(open: multiset<T>, key: T -> int)
    requires |open| > 0
    ensures exists e :: e in open && forall e' :: e' in open ==> key(e) <= key(e')
    decreases |open|
  {
    var x :| x in open;
    var rest := open - multiset{x};
    if rest == multiset{} {
      SingleMin(open, x, key);
    } else {
      MinExists(rest, key);
      var m :| m in rest && forall e' :: e' in rest ==> key(m) <= key(e');
      AddMin(rest, m, x, key);
      assert rest + multiset{x} == open;
    }
  }

  lemma SingleMin<T>(open: multiset<T>, x: T, key: T -> int)
    requires x in open && open - multiset{x} == multiset{}
    ensures forall e' :: e' in open ==> key(x) <= key(e')
  {
    assert open == multiset{x} by {
      assert open == (open - multiset{x}) + multiset{x};
    }
  }

  lemma AddMin<T>(rest: multiset<T>, m: T, x: T, key: T -> int)
    requires m in rest && forall e' :: e' in rest ==> key(m) <= key(e')
    ensures exists e :: e in rest + multiset{x} && forall e' :: e' in rest + multiset{x} ==> key(e) <= key(e')
  {
    var best := if key(x) < key(m) then x else m;
    assert best in rest + multiset{x};
  }

  /** `heapq.heappop`: an element of least key, and the rest of the queue. */
  method PopMin<T(==)>(open: multiset<T>, key: T -> int) returns (e: T, rest: multiset<T>)
    requires |open| > 0
    ensures e in open && rest == open - multiset{e}
    ensures forall e' :: e' in open ==> key(e) <= key(e')
  {
    MinExists(open, key);
    e :| e in open && forall e' :: e' in open ==> key(e) <= key(e');
    rest := open - multiset{e};
  }
}
