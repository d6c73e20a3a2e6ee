/** Settling a settled stack again (aoc/2023/22.py, `get_settled_bricks`): a
    stable stack of drawn bricks does not move. Sorting it by lowest z may
    reorder it, so the result is the same bricks in sorted order. */
module Resettling {
  import opened Opt
  import opened Bricks
  import opened Settling
  import opened Support

  /** A sequence with no brick twice counts each brick at most once. */
  lemma {:induction false} OnceCounted(s: seq<Brick>, x: Brick)
    requires Distinct(s)
    ensures multiset(s)[x] <= 1
  {
    if s != [] {
      var rest := s[1..];
      assert Distinct(rest) by {
        forall i, j | 0 <= i < j < |rest| ensures rest[i] != rest[j] {
          assert rest[i] == s[i + 1] && rest[j] == s[j + 1];
        }
      }
      OnceCounted(rest, x);
      assert s == [s[0]] + rest;
      if x == s[0] {
        forall k | 0 <= k < |rest| ensures rest[k] != x {
          assert rest[k] == s[k + 1];
        }
        assert x !in rest;
      }
    }
  }

  /** A brick at two positions is counted at least twice. */
  lemma TwiceCounted(t: seq<Brick>, i: nat, j: nat)
    requires i < j < |t|
    ensures t[i] == t[j] ==> multiset(t)[t[j]] >= 2
  {
    assert t == t[..j] + [t[j]] + t[j + 1..];
    assert t[..j][i] == t[i];
  }

  /** Reordering a sequence with no brick twice gives one with no brick twice. */
  lemma DistinctPermutation(s: seq<Brick>, t: seq<Brick>)
    requires Distinct(s) && multiset(t) == multiset(s)
    ensures Distinct(t)
  {
    forall i, j | 0 <= i < j < |t| ensures t[i] != t[j] {
      OnceCounted(s, t[j]);
      TwiceCounted(t, i, j);
    }
  }

  /** Every brick of a reordering sits somewhere in the original. */
  lemma InOriginal(s: seq<Brick>, t: seq<Brick>, p: nat) returns (q: nat)
    requires multiset(t) == multiset(s) && p < |t|
    ensures q < |s| && s[q] == t[p]
  {
    assert t[p] in multiset(s);
    q :| 0 <= q < |s| && s[q] == t[p];
  }

  /** A brick moved along z keeps being drawn. */
  lemma SameColumnDrawn(a: Brick, b: Brick)
    requires SameColumn(a, b) && Drawn(b)
    ensures Drawn(a)
  {
  }

  /** If the copy one step lower meets `e` but the brick itself does not, then
      `e` ends exactly one level below the brick. */
  lemma LowerMeets(b: Brick, e: Brick)
    requires Drawn(b) && Drawn(e) && MoveDown(b, 1).Some?
    requires Intersects(MoveDown(b, 1).value, e) && !Intersects(b, e)
    ensures ZMax(e) == ZMin(b) - 1
  {
    var down := MoveDown(b, 1).value;
    SameColumnDrawn(down, b);
    DrawnIntersectsIffOverlap(down, e);
    DrawnIntersectsIffOverlap(b, e);
    var axis :| 0 <= axis < 3 && !(Coord(b.start, axis) <= Coord(e.end, axis) && Coord(e.start, axis) <= Coord(b.end, axis));
    assert Coord(down.start, axis) <= Coord(e.end, axis) && Coord(e.start, axis) <= Coord(down.end, axis);
  }

  /** A brick that does not meet a brick starting no higher than it does not
      meet it from any height above either. */
  lemma LiftedMisses(b: Brick, e: Brick, h: int)
    requires Drawn(b) && Drawn(e) && ZMin(b) >= 1 && h >= 0
    requires ZMin(e) <= ZMin(b) && !Intersects(b, e)
    ensures MoveDown(b, -h).Some? && !Intersects(MoveDown(b, -h).value, e)
  {
    var up := MoveDown(b, -h).value;
    SameColumnDrawn(up, b);
    DrawnIntersectsIffOverlap(up, e);
    DrawnIntersectsIffOverlap(b, e);
    var axis :| 0 <= axis < 3 && !(Coord(b.start, axis) <= Coord(e.end, axis) && Coord(e.start, axis) <= Coord(b.end, axis));
    assert !(Coord(up.start, axis) <= Coord(e.end, axis) && Coord(e.start, axis) <= Coord(up.end, axis));
  }

  /** In a stable stack of drawn bricks, a brick above the floor rests on an
      earlier brick that ends one level below it. */
  lemma SupportInStack(s: seq<Brick>, i: nat) returns (j: nat)
    requires Stable(s) && (forall t :: 0 <= t < |s| ==> Drawn(s[t])) && i < |s|
    requires ZMin(s[i]) > 1
    ensures j < i && MoveDown(s[i], 1).Some? && Intersects(MoveDown(s[i], 1).value, s[j])
    ensures ZMax(s[j]) == ZMin(s[i]) - 1
  {
    assert Resting(s, i);
    var down := MoveDown(s[i], 1).value;
    j :| j in Intersection(down, s[..i]);
    assert s[..i][j] == s[j];
    assert !Intersects(s[i], s[j]);
    LowerMeets(s[i], s[j]);
  }

  /** The facts about the sorted stack that the proof below draws on. */
  ghost predicate SortedStack(s: seq<Brick>, order: seq<Brick>) {
    && Stable(s)
    && (forall i :: 0 <= i < |s| ==> Drawn(s[i]))
    && order == SortByZMin(s)
    && Distinct(s)
    && Distinct(order)
  }

  lemma SortedStackIntro(s: seq<Brick>)
    requires Stable(s) && forall i :: 0 <= i < |s| ==> Drawn(s[i])
    ensures SortedStack(s, SortByZMin(s))
  {
    SettledDistinct(s);
    DistinctPermutation(s, SortByZMin(s));
  }

  /** Brick `k` of the sorted stack is on the floor or rests on a brick that
      comes before it in the sorted order and ends one level below it. */
  lemma RestsOnEarlier(s: seq<Brick>, order: seq<Brick>, k: nat) returns (p: nat)
    requires SortedStack(s, order) && k < |order|
    ensures ZMin(order[k]) >= 1
    ensures ZMin(order[k]) > 1 ==> p < k && ZMax(order[p]) == ZMin(order[k]) - 1
    ensures ZMin(order[k]) > 1 ==> MoveDown(order[k], 1).Some? && Intersects(MoveDown(order[k], 1).value, order[p])
  {
    var i := InOriginal(s, order, k);
    p := 0;
    if ZMin(s[i]) > 1 {
      var j := SupportInStack(s, i);
      p := InOriginal(order, s, j);
      assert ZMin(order[p]) < ZMin(order[k]);
    }
  }

  /** No copy of brick `k` lifted by any height meets a brick before it in the
      sorted order. */
  lemma LiftedClear(s: seq<Brick>, order: seq<Brick>, k: nat, p: nat, h: int)
    requires SortedStack(s, order) && p < k < |order| && h >= 0
    ensures MoveDown(order[k], -h).Some? && !Intersects(MoveDown(order[k], -h).value, order[p])
  {
    var i := InOriginal(s, order, k);
    var q := InOriginal(s, order, p);
    assert order[p] != order[k];
    if q < i {
      assert !Intersects(s[i], s[q]);
    } else {
      assert !Intersects(s[q], s[i]);
      IntersectsSymmetric(s[q], s[i]);
    }
    LiftedMisses(order[k], order[p], h);
  }

  /** The highest brick before `k` is at least at the floor and at least one
      level below brick `k`. */
  lemma TopBelow(s: seq<Brick>, order: seq<Brick>, k: nat)
    requires SortedStack(s, order) && k < |order|
    ensures 1 <= Top(order[..k]) && ZMin(order[k]) <= Top(order[..k]) + 1
  {
    var below := order[..k];
    if below != [] {
      var t :| 0 <= t < |below| && Top(below) == ZMax(below[t]);
      var q := InOriginal(s, order, t);
    }
    var p := RestsOnEarlier(s, order, k);
    if ZMin(order[k]) > 1 {
      assert below[p] == order[p];
    }
  }

  /** Every lowering of the jumped brick down to its old place is clear. */
  lemma ClearToPlace(s: seq<Brick>, order: seq<Brick>, k: nat, n: int)
    requires SortedStack(s, order) && k < |order| && n <= 0
    requires MoveDown(order[k], n).Some?
    ensures ClearDown(MoveDown(order[k], n).value, order[..k], -n)
  {
    var b := order[k];
    var i := InOriginal(s, order, k);
    assert ZMin(b) >= 1;
    var jumped := MoveDown(b, n).value;
    forall m | 0 <= m <= -n
      ensures MoveDown(jumped, m).Some? && Intersection(MoveDown(jumped, m).value, order[..k]) == {}
    {
      MoveDownTwice(b, n, m);
      forall p | 0 <= p < k ensures !Intersects(MoveDown(b, n + m).value, order[..k][p]) {
        LiftedClear(s, order, k, p, -(n + m));
      }
    }
  }

  /** In the sorted order, each brick of a stable stack settles onto the
      bricks before it exactly where it already is. */
  lemma SettlesInPlace(s: seq<Brick>, order: seq<Brick>, k: nat)
    requires SortedStack(s, order) && k < |order|
    ensures Settles(order[k], order[..k], order[k])
  {
    var b, below := order[k], order[..k];
    TopBelow(s, order, k);
    var n := ZMin(b) - Top(below) - 1;
    JumpLands(b, Top(below));
    var jumped := MoveDown(b, n).value;
    MoveDownTwice(b, n, -n);
    ClearToPlace(s, order, k, n);
    var p := RestsOnEarlier(s, order, k);
    if ZMin(b) > 1 {
      assert p in Intersection(MoveDown(b, 1).value, below);
    }
    assert DroppedTo(jumped, below, b);
  }

  /** Settling a stable stack of drawn bricks again gives back the same
      bricks, sorted by lowest z: whatever the settling loop produces on it is
      that sorted stack, so it is a reordering of the stack. */
  lemma SettleIdempotent(s: seq<Brick>, t: seq<Brick>)
    requires Stable(s) && forall i :: 0 <= i < |s| ==> Drawn(s[i])
    requires |t| == |s|
    requires forall k :: 0 <= k < |t| ==> Settles(SortByZMin(s)[k], t[..k], t[k])
    ensures t == SortByZMin(s)
    ensures multiset(t) == multiset(s)
  {
    var order := SortByZMin(s);
    SortedStackIntro(s);
    forall k | 0 <= k < |order| ensures Settles(order[k], order[..k], order[k]) {
      SettlesInPlace(s, order, k);
    }
    SettledUnique(order, t, order);
  }
}
