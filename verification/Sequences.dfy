/** Vectors used as sets: no duplicates, ordered removal, and removal by moving
    the last element into the gap. */
module Sequences {

  ghost predicate NoDuplicates<T>(s: seq<T>) {
    forall i, j :: 0 <= i < j < |s| ==> s[i] != s[j]
  }

  function IndexOf<T(==)>(s: seq<T>, x: T): (i: nat)
    requires x in s
    ensures i < |s| && s[i] == x
  {
    if s[0] == x then 0 else 1 + IndexOf(s[1..], x)
  }

  /** `erase` of the position found by `std::find`. */
  function Erase<T(==)>(s: seq<T>, x: T): (r: seq<T>)
    requires x in s
  {
    s[..IndexOf(s, x)] + s[IndexOf(s, x) + 1..]
  }

  /** `swap` with the back, then `pop_back`. */
  function SwapRemove<T(==)>(s: seq<T>, x: T): (r: seq<T>)
    requires x in s
  {
    s[IndexOf(s, x) := s[|s| - 1]][..|s| - 1]
  }

  lemma EraseMembers<T>(s: seq<T>, x: T)
    requires NoDuplicates(s) && x in s
    ensures NoDuplicates(Erase(s, x))
    ensures forall y :: y in Erase(s, x) <==> y in s && y != x
  {
  }

  lemma SwapRemoveMembers<T>(s: seq<T>, x: T)
    requires NoDuplicates(s) && x in s
    ensures NoDuplicates(SwapRemove(s, x))
    ensures forall y :: y in SwapRemove(s, x) <==> y in s && y != x
  {
    var i := IndexOf(s, x);
    var r := SwapRemove(s, x);
    forall y ensures y in r <==> y in s && y != x {
      if y in s && y != x {
        var j := IndexOf(s, y);
        assert y == if j < |s| - 1 then r[j] else r[i];
      }
    }
  }

  lemma AppendMembers<T>(s: seq<T>, x: T)
    requires NoDuplicates(s) && x !in s
    ensures NoDuplicates(s + [x])
    ensures forall y :: y in s + [x] <==> y in s || y == x
  {
  }

  function Elements<T(==)>(s: seq<T>): set<T> {
    set x | x in s
  }

  lemma ElementsAppend<T>(s: seq<T>, x: T)
    ensures Elements(s + [x]) == Elements(s) + {x}
  {
  }

  lemma ElementsTail<T>(s: seq<T>)
    requires s != [] && NoDuplicates(s)
    ensures Elements(s[1..]) == Elements(s) - {s[0]}
  {
  }
}
