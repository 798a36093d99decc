/**
 Small facts about sets, maps and sequences that every part of the model uses.
 */
module Collections {
  datatype Option<+T> = None | Some(value: T)

  function Members<T(==,!new)>(s: seq<T>): (m: set<T>)
    ensures forall x :: x in s <==> x in m
  {
    set x | x in s
  }

  /** A lookup table: the last element with a key wins. */
  function Indexed<T, K(==), V>(s: seq<T>, key: T -> K, value: T -> V): (m: map<K, V>)
    ensures forall i :: 0 <= i < |s| ==> key(s[i]) in m
    ensures forall k :: k in m ==> exists i :: 0 <= i < |s| && key(s[i]) == k && m[k] == value(s[i])
  {
    if s == [] then map[]
    else
      var n := |s| - 1;
      Indexed(s[..n], key, value)[key(s[n]) := value(s[n])]
  }

  lemma StrictSubsetSize<T>(a: set<T>, b: set<T>)
    requires a < b
    ensures |a| < |b|
  {
    var x :| x in b && x !in a;
    assert a <= b - {x};
    SubsetSize(a, b - {x});
  }

  lemma {:induction false} SubsetSize<T>(a: set<T>, b: set<T>)
    requires a <= b
    ensures |a| <= |b|
    decreases a
  {
    if a != {} {
      var x :| x in a;
      SubsetSize(a - {x}, b - {x});
    }
  }

  lemma SetEquality<T>(a: set<T>, b: set<T>)
    requires forall e :: e in a <==> e in b
    ensures a == b
  {
  }

  lemma MapEquality<K, V>(a: map<K, V>, b: map<K, V>)
    requires a.Keys == b.Keys && forall k :: k in a ==> a[k] == b[k]
    ensures a == b
  {
  }

  method Pick<T(==)>(left: set<T>) returns (x: T)
    requires left != {}
    ensures x in left
  {
    x :| x in left;
  }
}
