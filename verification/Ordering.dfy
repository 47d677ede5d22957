/** Lexicographic order on keys made of several components, as sorting and ordered
    maps use it, and the ordered lists it produces. */
module Ordering {
  /** A component of a key: a string as its code points, or numbers. */
  type Component = seq<nat>
  type Key = seq<Component>

  function Codes(s: string): (c: Component)
    ensures |c| == |s|
  {
    seq(|s|, i requires 0 <= i < |s| => s[i] as nat)
  }

  lemma CodesInjective(s: string, t: string)
    requires Codes(s) == Codes(t)
    ensures s == t
  {
    forall i | 0 <= i < |s| ensures s[i] == t[i] {
      assert Codes(s)[i] == s[i] as nat && Codes(t)[i] == t[i] as nat;
    }
  }

  predicate ComponentLess(a: Component, b: Component) {
    b != [] && (a == [] || a[0] < b[0] || (a[0] == b[0] && ComponentLess(a[1..], b[1..])))
  }

  predicate Less(a: Key, b: Key) {
    b != [] && (a == [] || ComponentLess(a[0], b[0]) || (a[0] == b[0] && Less(a[1..], b[1..])))
  }

  lemma {:induction false} ComponentOrder(a: Component, b: Component)
    ensures a == b || ComponentLess(a, b) || ComponentLess(b, a)
    ensures ComponentLess(a, b) ==> a != b && !ComponentLess(b, a)
  {
    if a != [] && b != [] {
      ComponentOrder(a[1..], b[1..]);
      assert a == [a[0]] + a[1..] && b == [b[0]] + b[1..];
    }
  }

  lemma {:induction false} ComponentTransitive(a: Component, b: Component, c: Component)
    requires ComponentLess(a, b) && ComponentLess(b, c)
    ensures ComponentLess(a, c)
  {
    if a != [] && a[0] == b[0] == c[0] {
      ComponentTransitive(a[1..], b[1..], c[1..]);
    }
  }

  lemma {:induction false} TotalOrder(a: Key, b: Key)
    ensures a == b || Less(a, b) || Less(b, a)
    ensures Less(a, b) ==> a != b && !Less(b, a)
  {
    if a != [] && b != [] {
      ComponentOrder(a[0], b[0]);
      TotalOrder(a[1..], b[1..]);
      assert a == [a[0]] + a[1..] && b == [b[0]] + b[1..];
    }
  }

  lemma {:induction false} Transitive(a: Key, b: Key, c: Key)
    requires Less(a, b) && Less(b, c)
    ensures Less(a, c)
  {
    if a != [] {
      if ComponentLess(a[0], b[0]) && ComponentLess(b[0], c[0]) {
        ComponentTransitive(a[0], b[0], c[0]);
      } else if a[0] == b[0] == c[0] {
        Transitive(a[1..], b[1..], c[1..]);
      }
    }
  }

  // ----- ordered lists without duplicates

  ghost predicate Injective<T(!new)>(rank: T -> Key) {
    forall x, y :: rank(x) == rank(y) ==> x == y
  }

  ghost predicate Ascending<T>(xs: seq<T>, rank: T -> Key) {
    forall i, j :: 0 <= i < j < |xs| ==> Less(rank(xs[i]), rank(xs[j]))
  }

  function Insert<T>(xs: seq<T>, x: T, rank: T -> Key): seq<T> {
    if xs == [] then [x]
    else if Less(rank(x), rank(xs[0])) then [x] + xs
    else if rank(x) == rank(xs[0]) then xs
    else [xs[0]] + Insert(xs[1..], x, rank)
  }

  /** The list collected into an ordered set and back. */
  function Sorted<T>(xs: seq<T>, rank: T -> Key): seq<T> {
    if xs == [] then [] else Insert(Sorted(xs[..|xs| - 1], rank), xs[|xs| - 1], rank)
  }

  lemma {:induction false} InsertSorts<T(!new)>(xs: seq<T>, x: T, rank: T -> Key)
    requires Injective(rank) && Ascending(xs, rank)
    ensures Ascending(Insert(xs, x, rank), rank)
    ensures forall y :: y in Insert(xs, x, rank) <==> y in xs || y == x
  {
    if xs == [] {
    } else {
      TotalOrder(rank(x), rank(xs[0]));
      if Less(rank(x), rank(xs[0])) {
        forall j | 0 < j < |xs| ensures Less(rank(x), rank(xs[j])) {
          Transitive(rank(x), rank(xs[0]), rank(xs[j]));
        }
      } else if rank(x) != rank(xs[0]) {
        InsertSorts(xs[1..], x, rank);
        var rest := Insert(xs[1..], x, rank);
        assert xs == [xs[0]] + xs[1..];
        forall j | 0 <= j < |rest| ensures Less(rank(xs[0]), rank(rest[j])) {
          assert rest[j] in rest;
          if rest[j] != x {
            var k :| 0 <= k < |xs[1..]| && xs[1..][k] == rest[j];
            assert xs[k + 1] == rest[j];
          }
        }
      }
    }
  }

  lemma {:induction false} SortedSorts<T(!new)>(xs: seq<T>, rank: T -> Key)
    requires Injective(rank)
    ensures Ascending(Sorted(xs, rank), rank)
    ensures forall y :: y in Sorted(xs, rank) <==> y in xs
  {
    if xs != [] {
      SortedSorts(xs[..|xs| - 1], rank);
      InsertSorts(Sorted(xs[..|xs| - 1], rank), xs[|xs| - 1], rank);
      assert xs == xs[..|xs| - 1] + [xs[|xs| - 1]];
    }
  }

  /** An ordered list is determined by its elements. */
  lemma {:induction false} AscendingUnique<T(!new)>(xs: seq<T>, ys: seq<T>, rank: T -> Key)
    requires Injective(rank) && Ascending(xs, rank) && Ascending(ys, rank)
    requires forall x :: x in xs <==> x in ys
    ensures xs == ys
  {
    assert ys != [] ==> ys[0] in ys;
    if xs == [] {
    } else {
      assert xs[0] in ys;
      var j :| 0 <= j < |ys| && ys[j] == xs[0];
      assert ys[0] in xs;
      var i :| 0 <= i < |xs| && xs[i] == ys[0];
      if i > 0 && j > 0 {
        TotalOrder(rank(xs[0]), rank(ys[0]));
      }
      assert xs[0] == ys[0];
      forall x ensures x in xs[1..] <==> x in ys[1..] {
        NotInTail(xs, rank);
        NotInTail(ys, rank);
        assert xs == [xs[0]] + xs[1..] && ys == [ys[0]] + ys[1..];
        assert x in xs <==> x == xs[0] || x in xs[1..];
        assert x in ys <==> x == ys[0] || x in ys[1..];
      }
      AscendingUnique(xs[1..], ys[1..], rank);
    }
  }

  lemma NotInTail<T>(xs: seq<T>, rank: T -> Key)
    requires xs != [] && Ascending(xs, rank)
    ensures xs[0] !in xs[1..]
  {
    if xs[0] in xs[1..] {
      var k :| 0 <= k < |xs[1..]| && xs[1..][k] == xs[0];
      assert Less(rank(xs[0]), rank(xs[k + 1]));
      TotalOrder(rank(xs[0]), rank(xs[0]));
    }
  }

  /** Sorting forgets everything but the elements. */
  lemma SortedUnique<T(!new)>(xs: seq<T>, ys: seq<T>, rank: T -> Key)
    requires Injective(rank) && forall x :: x in xs <==> x in ys
    ensures Sorted(xs, rank) == Sorted(ys, rank)
  {
    SortedSorts(xs, rank);
    SortedSorts(ys, rank);
    AscendingUnique(Sorted(xs, rank), Sorted(ys, rank), rank);
  }

  lemma SortedIdempotent<T(!new)>(xs: seq<T>, rank: T -> Key)
    requires Injective(rank) && Ascending(xs, rank)
    ensures Sorted(xs, rank) == xs
  {
    SortedSorts(xs, rank);
    AscendingUnique(Sorted(xs, rank), xs, rank);
  }

  /** No element of an ordered list occurs twice. */
  lemma AscendingDistinct<T>(xs: seq<T>, rank: T -> Key, i: nat, j: nat)
    requires Ascending(xs, rank) && i < j < |xs|
    ensures xs[i] != xs[j]
  {
    TotalOrder(rank(xs[i]), rank(xs[j]));
  }
}
