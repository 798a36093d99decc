/**
 Sibling order by `(rank, id)`.

 A rank is a point of a dense order without end points, modelled by a real
 number. Ranks of siblings may tie; the id breaks the tie.
 */
module Siblings {
  import opened Collections
  import opened TreeTheory

  type Rank = real

  datatype Sibling = Sibling(id: Id, rank: Rank)

  predicate Before(a: Sibling, b: Sibling) {
    a.rank < b.rank || (a.rank == b.rank && a.id.n < b.id.n)
  }

  ghost predicate Sorted(s: seq<Sibling>) {
    forall i, j :: 0 <= i < j < |s| ==> Before(s[i], s[j])
  }

  // ---------- one read order per set of siblings ----------

  /** The siblings of `m` in read order. */
  ghost function InOrder(m: set<Sibling>): (s: seq<Sibling>)
    ensures Sorted(s) && Members(s) == m && |s| == |m|
    decreases |m|
  {
    if m == {} then []
    else
      FirstExists(m);
      var x :| IsFirst(m, x);
      var rest := InOrder(m - {x});
      FirstThenRest(m, x, rest);
      [x] + rest
  }

  lemma FirstThenRest(m: set<Sibling>, x: Sibling, rest: seq<Sibling>)
    requires IsFirst(m, x) && Sorted(rest) && Members(rest) == m - {x} && |rest| == |m - {x}|
    ensures Sorted([x] + rest) && Members([x] + rest) == m && |rest| + 1 == |m|
  {
    assert forall y :: y in rest ==> y in m && y != x;
    SetEquality(Members([x] + rest), m);
  }

  ghost predicate IsFirst(m: set<Sibling>, x: Sibling) {
    x in m && forall y :: y in m && y != x ==> Before(x, y)
  }

  lemma {:induction false} FirstExists(m: set<Sibling>)
    requires m != {}
    ensures exists x :: IsFirst(m, x)
    decreases |m|
  {
    var x :| x in m;
    if m - {x} == {} {
      assert m == {x};
      assert IsFirst(m, x);
    } else {
      FirstExists(m - {x});
      var y :| IsFirst(m - {x}, y);
      if Before(x, y) {
        forall w | w in m && w != x
          ensures Before(x, w)
        {
          assert w == y || Before(y, w);
        }
        assert IsFirst(m, x);
      } else {
        assert IsFirst(m, y);
      }
    }
  }

  /** A sorted list is determined by its members. */
  lemma {:induction false} SortedUnique(s: seq<Sibling>, t: seq<Sibling>)
    requires Sorted(s) && Sorted(t) && Members(s) == Members(t)
    ensures s == t
  {
    assert t == [] || (t[0] in Members(t) && t[0] in s);
    if s != [] {
      assert s[0] in Members(t);
      assert s[0] == t[0];
      forall x
        ensures x in s[1..] <==> x in t[1..]
      {
        assert x in s <==> x == s[0] || x in s[1..];
        assert x in t <==> x == t[0] || x in t[1..];
        assert s[0] !in s[1..] && t[0] !in t[1..];
      }
      SortedUnique(s[1..], t[1..]);
    }
  }

  lemma InOrderOf(s: seq<Sibling>)
    requires Sorted(s)
    ensures InOrder(Members(s)) == s
  {
    SortedUnique(InOrder(Members(s)), s);
  }

  lemma MembersConcat(a: seq<Sibling>, b: seq<Sibling>)
    ensures Members(a + b) == Members(a) + Members(b)
  {
  }

  // ---------- sorting ----------

  function Insert(s: seq<Sibling>, x: Sibling): (r: seq<Sibling>)
    requires Sorted(s) && x !in s
    ensures Sorted(r) && Members(r) == Members(s) + {x} && |r| == |s| + 1
  {
    if s == [] then [x]
    else if Before(x, s[0]) then
      MembersConcat([x], s);
      [x] + s
    else
      MembersConcat([s[0]], s[1..]);
      assert s == [s[0]] + s[1..];
      var rest := Insert(s[1..], x);
      MembersConcat([s[0]], rest);
      assert forall y :: y in rest ==> y in Members(rest) && (y in s[1..] || y == x);
      assert forall y :: y in s[1..] ==> Before(s[0], y);
      assert s[0] != x && Before(s[0], x);
      assert forall i :: 0 <= i < |rest| ==> rest[i] in rest;
      [s[0]] + rest
  }

  /** `sortSiblings`: the list in read order. */
  method SortSiblings(s: seq<Sibling>) returns (r: seq<Sibling>)
    requires forall i, j :: 0 <= i < j < |s| ==> s[i] != s[j]
    ensures r == InOrder(Members(s))
    ensures |r| == |s| && forall e :: e in r <==> e in s
    ensures forall i, j :: 0 <= i < j < |r| ==>
      r[i].rank < r[j].rank || (r[i].rank == r[j].rank && r[i].id.n < r[j].id.n)
  {
    r := [];
    for n := 0 to |s|
      invariant Sorted(r) && Members(r) == Members(s[..n]) && |r| == n
    {
      assert s[..n + 1] == s[..n] + [s[n]];
      assert s[n] !in s[..n];
      assert Members(s[..n + 1]) == Members(s[..n]) + {s[n]};
      r := Insert(r, s[n]);
    }
    assert s[..|s|] == s;
    InOrderOf(r);
  }

  // ---------- ranks ----------

  /** Bounds that leave room for a new rank; a missing bound is open. */
  predicate Room(lower: Option<Rank>, upper: Option<Rank>) {
    lower.Some? && upper.Some? ==> lower.value < upper.value
  }

  ghost predicate Between(lower: Option<Rank>, r: Rank, upper: Option<Rank>) {
    && (lower.Some? ==> lower.value < r)
    && (upper.Some? ==> r < upper.value)
  }

  /**
   `rankBetween`: some rank strictly between the bounds, or nothing when it
   throws because the bounds tie or are crossed. Callers rely on no particular
   choice between the bounds.
   */
  method RankBetween(lower: Option<Rank>, upper: Option<Rank>) returns (r: Option<Rank>)
    ensures r.Some? <==> Room(lower, upper)
    ensures r.None? <==> lower.Some? && upper.Some? && lower.value >= upper.value
    ensures r.Some? ==> (lower.Some? ==> lower.value < r.value) && (upper.Some? ==> r.value < upper.value)
    ensures r.Some? ==> Between(lower, r.value, upper)
  {
    match (lower, upper)
    case (Some(l), Some(u)) =>
      r := if l < u then Some((l + u) / 2.0) else None;
    case (Some(l), None) =>
      r := Some(l + 1.0);
    case (None, Some(u)) =>
      r := Some(u - 1.0);
    case (None, None) =>
      r := Some(0.0);
  }
}
