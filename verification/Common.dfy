/** Stock datatypes and the removal of list members, shared by the modules. */
module Common {
  datatype Option<+T> = None | Some(value: T)

  /** What is left of a list after the members that are `gone` have been removed. */
  function Kept<T>(q: seq<T>, gone: T -> bool): seq<T> {
    if q == [] then []
    else if gone(q[0]) then Kept(q[1..], gone)
    else [q[0]] + Kept(q[1..], gone)
  }

  ghost predicate IsSubsequence<T>(a: seq<T>, b: seq<T>) {
    if a == [] then true
    else b != [] && if a[0] == b[0] then IsSubsequence(a[1..], b[1..]) else IsSubsequence(a, b[1..])
  }

  /** No member that is gone remains, and every other one does, as often and in the order it was there. */
  ghost predicate IsKept<T(!new)>(kept: seq<T>, q: seq<T>, gone: T -> bool) {
    && (forall x :: multiset(kept)[x] == if gone(x) then 0 else multiset(q)[x])
    && IsSubsequence(kept, q)
  }

  lemma {:induction false} SubsequenceOfRest<T>(a: seq<T>, x: T, b: seq<T>)
    requires IsSubsequence(a, b)
    ensures IsSubsequence(a, [x] + b)
    decreases |b|, 1
  {
    assert ([x] + b)[1..] == b;
    if a != [] && a[0] == x {
      SubsequenceTail(a, b);
    }
  }

  lemma {:induction false} SubsequenceTail<T>(a: seq<T>, b: seq<T>)
    requires a != [] && IsSubsequence(a, b)
    ensures IsSubsequence(a[1..], b)
    decreases |b|, 0
  {
    assert b == [b[0]] + b[1..];
    if a[0] == b[0] {
      SubsequenceOfRest(a[1..], b[0], b[1..]);
    } else {
      SubsequenceTail(a, b[1..]);
      SubsequenceOfRest(a[1..], b[0], b[1..]);
    }
  }

  lemma {:induction false} KeptIsKept<T(!new)>(q: seq<T>, gone: T -> bool)
    ensures IsKept(Kept(q, gone), q, gone)
    ensures |Kept(q, gone)| <= |q|
    ensures |Kept(q, gone)| == |q| ==> Kept(q, gone) == q
  {
    if q != [] {
      var rest := Kept(q[1..], gone);
      KeptIsKept(q[1..], gone);
      assert q == [q[0]] + q[1..];
      assert ([q[0]] + rest)[1..] == rest;
      if gone(q[0]) {
        SubsequenceOfRest(rest, q[0], q[1..]);
      }
    }
  }
}
