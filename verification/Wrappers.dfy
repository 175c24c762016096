/** Options and results, for the pointers and error returns of the program. */
module Wrappers {

  datatype Option<+T> = None | Some(value: T)

  datatype Result<+T, +E> = Ok(value: T) | Err(error: E)

  /** Address families; `Unknown` is what the range library gives an empty list it parsed. */
  datatype Family = Unknown | IPv4 | IPv6
}

/** Sets of list elements and their cardinalities. */
module SetSizes {

  function SetOf<T(==)>(s: seq<T>): set<T> {
    set x | x in s
  }

  lemma SetOfAppend<T>(s: seq<T>, x: T)
    ensures SetOf(s + [x]) == SetOf(s) + {x}
  {}

  lemma CardDisjoint(u: set<int>, a: set<int>, b: set<int>)
    requires forall x :: x in u <==> x in a || x in b
    requires forall x :: x in a ==> x !in b
    ensures |u| == |a| + |b|
  {
    forall x ensures x in u <==> x in a + b {}
    forall x ensures x !in a * b {}
    assert u == a + b;
    assert a * b == {};
  }

  lemma SubsetCard<T>(a: set<T>, b: set<T>)
    requires a <= b
    ensures |a| <= |b| && |b - a| == |b| - |a|
  {
    assert b == a + (b - a);
  }
}
