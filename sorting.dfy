/** Python's `sorted(xs, key=...)`: a stable sort, modelled as an insertion
    sort over a caller-supplied "less than or equal" on the elements. */
module Sorting {

  /** `le` is total and transitive, which is all that a key comparison gives. */
  ghost predicate TotalPreorder<T(!new)>(le: (T, T) -> bool) {
    && (forall a, b :: le(a, b) || le(b, a))
    && (forall a, b, c :: le(a, b) && le(b, c) ==> le(a, c))
  }

  ghost predicate SortedBy<T>(s: seq<T>, le: (T, T) -> bool) {
    forall i, j :: 0 <= i < j < |s| ==> le(s[i], s[j])
  }

  /** Puts `x` in front of the first element it is not above, so that it stays
      before elements with an equal key (stability). */
  function Insert<T>(x: T, s: seq<T>, le: (T, T) -> bool): (r: seq<T>)
    ensures multiset(r) == multiset(s) + multiset{x}
  {
    if s == [] then [x]
    else if le(x, s[0]) then [x] + s
    else
      assert s == [s[0]] + s[1..];
      [s[0]] + Insert(x, s[1..], le)
  }

  function SortBy<T>(s: seq<T>, le: (T, T) -> bool): (r: seq<T>)
    ensures multiset(r) == multiset(s) && |r| == |s|
  {
    if s == [] then []
    else
      assert s == [s[0]] + s[1..];
      Insert(s[0], SortBy(s[1..], le), le)
  }

  lemma {:induction false} InsertSorted<T(!new)>(x: T, s: seq<T>, le: (T, T) -> bool)
    requires TotalPreorder(le) && SortedBy(s, le)
    ensures SortedBy(Insert(x, s, le), le)
  {
    if s != [] && !le(x, s[0]) {
      InsertSorted(x, s[1..], le);
      var r := Insert(x, s, le);
      var t := Insert(x, s[1..], le);
      assert r == [s[0]] + t;
      forall j | 0 < j < |r| ensures le(r[0], r[j]) {
        assert r[j] in multiset(t);
        assert r[j] in multiset(s[1..]) + multiset{x};
        if r[j] == x {
        } else {
          assert r[j] in s[1..];
          var k :| 0 <= k < |s[1..]| && s[1..][k] == r[j];
          assert s[k + 1] == r[j];
        }
      }
    }
  }

  /** The result of `SortBy` is in ascending order and a permutation of the input. */
  lemma {:induction false} SortBySorted<T(!new)>(s: seq<T>, le: (T, T) -> bool)
    requires TotalPreorder(le)
    ensures SortedBy(SortBy(s, le), le) && multiset(SortBy(s, le)) == multiset(s)
  {
    if s != [] {
      SortBySorted(s[1..], le);
      InsertSorted(s[0], SortBy(s[1..], le), le);
    }
  }

  /** The elements of `s` whose key ties with `x` (each is `le` the other), in order. */
  function Ties<T>(s: seq<T>, x: T, le: (T, T) -> bool): seq<T> {
    if s == [] then []
    else (if le(s[0], x) && le(x, s[0]) then [s[0]] else []) + Ties(s[1..], x, le)
  }

  lemma TiesCons<T>(a: T, s: seq<T>, x: T, le: (T, T) -> bool)
    ensures Ties([a] + s, x, le) == (if le(a, x) && le(x, a) then [a] else []) + Ties(s, x, le)
  {
    assert ([a] + s)[1..] == s;
  }

  /** An element `y` that ties with `x` is `le` every element that ties with `x`. */
  ghost predicate TieBelow<T(!new)>(y: T, x: T, le: (T, T) -> bool) {
    forall z :: le(y, x) && le(x, y) && le(z, x) && le(x, z) ==> le(y, z)
  }

  lemma TieBelowOfPreorder<T(!new)>(y: T, x: T, le: (T, T) -> bool)
    requires TotalPreorder(le)
    ensures TieBelow(y, x, le)
  {
  }

  lemma SwapEmpty<T>(a: seq<T>, b: seq<T>, c: seq<T>)
    requires a == [] || b == []
    ensures a + (b + c) == b + (a + c)
  {
    if a == [] {
      assert a + (b + c) == b + c == b + (a + c);
    } else {
      assert a + (b + c) == a + c == b + (a + c);
    }
  }

  /** An element that is not `le` another cannot share a tie class with it. */
  lemma NotBothTie<T(!new)>(y: T, z: T, x: T, le: (T, T) -> bool)
    requires TieBelow(y, x, le) && !le(y, z)
    ensures !(le(y, x) && le(x, y)) || !(le(z, x) && le(x, z))
  {
  }

  /** Inserting `y` adds it to its own tie class in front of the others in it,
      and changes no other tie class. */
  lemma {:induction false} InsertTies<T(!new)>(y: T, s: seq<T>, x: T, le: (T, T) -> bool)
    requires TieBelow(y, x, le)
    ensures Ties(Insert(y, s, le), x, le) == (if le(y, x) && le(x, y) then [y] else []) + Ties(s, x, le)
  {
    if s == [] {
      TiesCons(y, [], x, le);
    } else if le(y, s[0]) {
      TiesCons(y, s, x, le);
    } else {
      var t := Insert(y, s[1..], le);
      var own := if le(y, x) && le(x, y) then [y] else [];
      var head := if le(s[0], x) && le(x, s[0]) then [s[0]] else [];
      NotBothTie(y, s[0], x, le);
      assert Insert(y, s, le) == [s[0]] + t;
      calc {
        Ties(Insert(y, s, le), x, le);
        Ties([s[0]] + t, x, le);
        { TiesCons(s[0], t, x, le); }
        head + Ties(t, x, le);
        { InsertTies(y, s[1..], x, le); }
        head + (own + Ties(s[1..], x, le));
        { SwapEmpty(head, own, Ties(s[1..], x, le)); }
        own + (head + Ties(s[1..], x, le));
        { TiesCons(s[0], s[1..], x, le); assert s == [s[0]] + s[1..]; }
        own + Ties(s, x, le);
      }
    }
  }

  /** `SortBy` is stable: the elements of each tie class come out in the
      order they went in. */
  lemma {:induction false} SortByStable<T(!new)>(s: seq<T>, x: T, le: (T, T) -> bool)
    requires TotalPreorder(le)
    ensures Ties(SortBy(s, le), x, le) == Ties(s, x, le)
  {
    if s != [] {
      SortByStable(s[1..], x, le);
      TieBelowOfPreorder(s[0], x, le);
      InsertTies(s[0], SortBy(s[1..], le), x, le);
    }
  }

  /** An element is in the tie class of `x` exactly when it is in `s` and ties with `x`. */
  lemma {:induction false} InTies<T>(s: seq<T>, x: T, le: (T, T) -> bool, e: T)
    ensures e in Ties(s, x, le) <==> e in s && le(e, x) && le(x, e)
  {
    if s != [] {
      InTies(s[1..], x, le, e);
      TiesCons(s[0], s[1..], x, le);
      assert s == [s[0]] + s[1..];
    }
  }

  /** Two sorted sequences whose tie classes all agree are the same: a stable
      sort has one outcome. */
  lemma {:induction false} StableSortUnique<T(!new)>(a: seq<T>, b: seq<T>, le: (T, T) -> bool)
    requires TotalPreorder(le) && SortedBy(a, le) && SortedBy(b, le)
    requires forall x :: Ties(a, x, le) == Ties(b, x, le)
    ensures a == b
    decreases |a|
  {
    if a != [] {
      assert a == [a[0]] + a[1..];
      TiesCons(a[0], a[1..], a[0], le);
      InTies(b, a[0], le, a[0]);
    }
    if b != [] {
      assert b == [b[0]] + b[1..];
      TiesCons(b[0], b[1..], b[0], le);
      InTies(a, b[0], le, b[0]);
    }
    if a != [] && b != [] {
      var x, y := a[0], b[0];
      assert le(y, x) by {
        var k :| 0 <= k < |b| && b[k] == x;
        if k > 0 { assert le(b[0], b[k]); }
      }
      assert le(x, y) by {
        var k :| 0 <= k < |a| && a[k] == y;
        if k > 0 { assert le(a[0], a[k]); }
      }
      TiesCons(y, b[1..], x, le);
      assert x == y by {
        assert Ties(a, x, le)[0] == x && Ties(b, x, le)[0] == y;
      }
      forall z ensures Ties(a[1..], z, le) == Ties(b[1..], z, le) {
        TiesCons(x, a[1..], z, le);
        TiesCons(x, b[1..], z, le);
        var h := if le(x, z) && le(z, x) then [x] else [];
        assert h + Ties(a[1..], z, le) == h + Ties(b[1..], z, le);
        assert (h + Ties(a[1..], z, le))[|h|..] == Ties(a[1..], z, le);
        assert (h + Ties(b[1..], z, le))[|h|..] == Ties(b[1..], z, le);
      }
      assert SortedBy(a[1..], le) && SortedBy(b[1..], le) by {
        forall i, j | 0 <= i < j < |a| - 1 ensures le(a[1..][i], a[1..][j]) {
          assert le(a[i + 1], a[j + 1]);
        }
        forall i, j | 0 <= i < j < |b| - 1 ensures le(b[1..][i], b[1..][j]) {
          assert le(b[i + 1], b[j + 1]);
        }
      }
      StableSortUnique(a[1..], b[1..], le);
    }
  }

  /** The usual order on integers, as a comparison for `SortBy`. */
  predicate IntLe(a: int, b: int) {
    a <= b
  }

  lemma HeadIsLeast(s: seq<int>, x: int)
    requires SortedBy(s, IntLe) && x in multiset(s)
    ensures s[0] <= x
  {
    var k :| 0 <= k < |s| && s[k] == x;
    if k > 0 { assert IntLe(s[0], s[k]); }
  }

  lemma TailSorted<T>(s: seq<T>, le: (T, T) -> bool)
    requires SortedBy(s, le) && s != []
    ensures SortedBy(s[1..], le)
  {
    forall i, j | 0 <= i < j < |s| - 1 ensures le(s[1..][i], s[1..][j]) {
      assert s[1..][i] == s[i + 1] && s[1..][j] == s[j + 1];
    }
  }

  lemma TailMultiset<T>(s: seq<T>)
    requires s != []
    ensures multiset(s[1..]) == multiset(s) - multiset{s[0]}
  {
    assert s == [s[0]] + s[1..];
  }

  /** Two ascending integer sequences with the same elements are equal. */
  lemma {:induction false} SortedIntsUnique(a: seq<int>, b: seq<int>)
    requires SortedBy(a, IntLe) && SortedBy(b, IntLe)
    requires multiset(a) == multiset(b)
    ensures a == b
  {
    assert |a| == |b| by {
      assert |a| == |multiset(a)| && |b| == |multiset(b)|;
    }
    if a != [] {
      assert a[0] == b[0] by {
        assert a[0] in multiset(b) && b[0] in multiset(a);
        HeadIsLeast(a, b[0]);
        HeadIsLeast(b, a[0]);
      }
      assert multiset(a[1..]) == multiset(b[1..]) by {
        TailMultiset(a);
        TailMultiset(b);
      }
      TailSorted(a, IntLe);
      TailSorted(b, IntLe);
      SortedIntsUnique(a[1..], b[1..]);
      assert a == [a[0]] + a[1..] && b == [b[0]] + b[1..];
    }
  }
}
