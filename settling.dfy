/** `get_settled_bricks` of aoc/2023/22.py: bricks fall, lowest first, until
    they rest on the floor (z = 1) or on a brick that settled before them. */
module Settling {
  import opened Opt
  import opened Bricks
  import Sorting

  predicate ZMinLe(a: Brick, b: Brick) {
    ZMin(a) <= ZMin(b)
  }

  lemma ZMinLeTotal()
    ensures Sorting.TotalPreorder(ZMinLe)
  {
  }

  /** Bricks with the same lowest z keep their input order under the sort. */
  lemma ZMinSortStable(bricks: seq<Brick>)
    ensures forall b :: Sorting.Ties(Sorting.SortBy(bricks, ZMinLe), b, ZMinLe) == Sorting.Ties(bricks, b, ZMinLe)
  {
    ZMinLeTotal();
    forall b ensures Sorting.Ties(Sorting.SortBy(bricks, ZMinLe), b, ZMinLe) == Sorting.Ties(bricks, b, ZMinLe) {
      Sorting.SortByStable(bricks, b, ZMinLe);
    }
  }

  /** `sorted(bricks, key=z_min)`: a stable sort of the input by lowest z; the
      bricks that share a lowest z with any `b` come out in input order. */
  function SortByZMin(bricks: seq<Brick>): (r: seq<Brick>)
    ensures multiset(r) == multiset(bricks) && |r| == |bricks|
    ensures forall i, j :: 0 <= i < j < |r| ==> ZMin(r[i]) <= ZMin(r[j])
    ensures forall b :: Sorting.Ties(r, b, ZMinLe) == Sorting.Ties(bricks, b, ZMinLe)
  {
    ZMinLeTotal();
    Sorting.SortBySorted(bricks, ZMinLe);
    ZMinSortStable(bricks);
    Sorting.SortBy(bricks, ZMinLe)
  }

  /** `max([b.z_max for b in settled], default=1)`. */
  function Top(settled: seq<Brick>): (r: int)
    ensures forall i :: 0 <= i < |settled| ==> ZMax(settled[i]) <= r
    ensures settled == [] ==> r == 1
    ensures settled != [] ==> exists i :: 0 <= i < |settled| && r == ZMax(settled[i])
  {
    if settled == [] then 1
    else if |settled| == 1 then ZMax(settled[0])
    else
      var rest := Top(settled[1..]);
      assert forall i :: 1 <= i < |settled| ==> settled[i] == settled[1..][i - 1];
      if ZMax(settled[0]) >= rest then ZMax(settled[0]) else rest
  }

  /** The fast-forward jump lands the brick just above `top`, whichever way it
      has to move, and never fails while `top` is not below the floor. */
  lemma JumpLands(b: Brick, top: int)
    requires top >= 0
    ensures MoveDown(b, ZMin(b) - top - 1).Some?
    ensures ZMin(MoveDown(b, ZMin(b) - top - 1).value) == top + 1
  {
  }

  /** Every settled brick is at or above the floor. */
  ghost predicate AboveFloor(settled: seq<Brick>) {
    forall i :: 0 <= i < |settled| ==> ZMin(settled[i]) >= 1
  }

  /** No settled brick intersects one that settled before it. */
  ghost predicate NoOverlap(settled: seq<Brick>) {
    forall i, j :: 0 <= i < j < |settled| ==> !Intersects(settled[j], settled[i])
  }

  /** Brick `i` lies on the floor, or one step lower it would hit an earlier brick. */
  ghost predicate Resting(settled: seq<Brick>, i: int)
    requires 0 <= i < |settled|
  {
    ZMin(settled[i]) == 1
    || (MoveDown(settled[i], 1).Some? && Intersection(MoveDown(settled[i], 1).value, settled[..i]) != {})
  }

  ghost predicate Stable(settled: seq<Brick>) {
    && AboveFloor(settled)
    && NoOverlap(settled)
    && (forall i :: 0 <= i < |settled| ==> Resting(settled, i))
  }

  /** Committing a brick that is above the floor, clear of the stack and
      resting on it keeps the stack stable. */
  lemma StableAppend(settled: seq<Brick>, b: Brick)
    requires Stable(settled) && ZMin(b) >= 1
    requires forall i :: 0 <= i < |settled| ==> !Intersects(b, settled[i])
    requires ZMin(b) == 1 || (MoveDown(b, 1).Some? && Intersection(MoveDown(b, 1).value, settled) != {})
    ensures Stable(settled + [b])
  {
    var s := settled + [b];
    assert s[..|settled|] == settled;
    forall i | 0 <= i < |s| ensures Resting(s, i) {
      if i < |settled| {
        assert s[..i] == settled[..i];
        assert Resting(settled, i);
      }
    }
  }

  /** Lowering by `m` and then by `n` is lowering by `m + n`. */
  lemma MoveDownTwice(b: Brick, m: int, n: int)
    requires MoveDown(b, m).Some?
    ensures MoveDown(MoveDown(b, m).value, n) == MoveDown(b, m + n)
  {
  }

  /** Every copy of `b` lowered by 0 to `d` exists and meets no settled brick. */
  ghost predicate ClearDown(b: Brick, settled: seq<Brick>, d: int) {
    forall m :: 0 <= m <= d ==> MoveDown(b, m).Some? && Intersection(MoveDown(b, m).value, settled) == {}
  }

  /** `brick` is `b` lowered through clear levels only, to the first level
      where one step lower is below the floor or meets a settled brick. */
  ghost predicate DroppedTo(b: Brick, settled: seq<Brick>, brick: Brick) {
    && ZMin(brick) <= ZMin(b)
    && MoveDown(b, ZMin(b) - ZMin(brick)) == Some(brick)
    && ClearDown(b, settled, ZMin(b) - ZMin(brick))
    && (MoveDown(brick, 1).None? || Intersection(MoveDown(brick, 1).value, settled) != {})
  }

  /** One round of the settling loop: `brick` is `b` lifted or lowered to just
      above the highest of the bricks `below`, then dropped through clear levels. */
  ghost predicate Settles(b: Brick, below: seq<Brick>, brick: Brick) {
    var jumped := MoveDown(b, ZMin(b) - Top(below) - 1);
    jumped.Some? && DroppedTo(jumped.value, below, brick)
  }

  /** One more clear level extends the clear run. */
  lemma ClearDownStep(b: Brick, settled: seq<Brick>, d: int)
    requires ClearDown(b, settled, d)
    requires MoveDown(b, d + 1).Some? && Intersection(MoveDown(b, d + 1).value, settled) == {}
    ensures ClearDown(b, settled, d + 1)
  {
  }

  /** A drop stops at the first blocked level: no run of clear levels reaches
      past where it stopped. */
  lemma DropStopsFirst(b: Brick, settled: seq<Brick>, brick: Brick, d: int)
    requires DroppedTo(b, settled, brick) && ClearDown(b, settled, d)
    ensures d <= ZMin(b) - ZMin(brick)
  {
    var stop := ZMin(b) - ZMin(brick);
    if d > stop {
      MoveDownTwice(b, stop, 1);
      assert false;
    }
  }

  lemma SettlesIntro(b: Brick, below: seq<Brick>, jumped: Brick, brick: Brick)
    requires MoveDown(b, ZMin(b) - Top(below) - 1) == Some(jumped)
    requires DroppedTo(jumped, below, brick)
    ensures Settles(b, below, brick)
  {
  }

  /** A drop has one outcome: the first blocked level. */
  lemma DropUnique(b: Brick, settled: seq<Brick>, brick1: Brick, brick2: Brick)
    requires DroppedTo(b, settled, brick1) && DroppedTo(b, settled, brick2)
    ensures brick1 == brick2
  {
    DropStopsFirst(b, settled, brick1, ZMin(b) - ZMin(brick2));
    DropStopsFirst(b, settled, brick2, ZMin(b) - ZMin(brick1));
  }

  lemma PrefixExtend(s: seq<Brick>, t: seq<Brick>, n: nat)
    requires n < |s| && n < |t| && s[..n] == t[..n] && s[n] == t[n]
    ensures s[..n + 1] == t[..n + 1]
  {
    assert s[..n + 1] == s[..n] + [s[n]] && t[..n + 1] == t[..n] + [t[n]];
  }

  /** Stacks that agree on the first `n` bricks and settle brick `n` from the
      same input brick agree on `n + 1` bricks. */
  lemma SettledStep(b: Brick, s: seq<Brick>, t: seq<Brick>, n: nat)
    requires n < |s| && n < |t| && s[..n] == t[..n]
    requires Settles(b, s[..n], s[n]) && Settles(b, t[..n], t[n])
    ensures s[..n + 1] == t[..n + 1]
  {
    var jumped := MoveDown(b, ZMin(b) - Top(s[..n]) - 1).value;
    DropUnique(jumped, s[..n], s[n], t[n]);
    PrefixExtend(s, t, n);
  }

  /** The settled stack is a function of the order the bricks come in: two
      stacks built round by round from the same order are the same. */
  lemma {:induction false} SettledUnique(order: seq<Brick>, s: seq<Brick>, t: seq<Brick>)
    requires |s| == |order| && |t| == |order|
    requires forall k :: 0 <= k < |s| ==> Settles(order[k], s[..k], s[k])
    requires forall k :: 0 <= k < |t| ==> Settles(order[k], t[..k], t[k])
    ensures s == t
  {
    var n := 0;
    while n < |order|
      invariant 0 <= n <= |order|
      invariant s[..n] == t[..n]
    {
      SettledStep(order[n], s, t, n);
      n := n + 1;
    }
    assert s == s[..n] && t == t[..n];
  }

  /** A brick above the floor and clear of the stack starts a clear run. */
  lemma ClearStart(b: Brick, settled: seq<Brick>)
    requires ZMin(b) >= 1
    requires forall i :: 0 <= i < |settled| ==> !Intersects(b, settled[i])
    ensures MoveDown(b, 0) == Some(b) && ClearDown(b, settled, 0)
  {
    assert Intersection(b, settled) == {};
  }

  /** A dropped brick is the same brick lower down, above the floor, clear of
      the stack and resting on the floor or on the stack. */
  lemma DroppedToRests(b: Brick, settled: seq<Brick>, brick: Brick)
    requires DroppedTo(b, settled, brick)
    ensures SameColumn(brick, b) && 1 <= ZMin(brick) <= ZMin(b)
    ensures forall i :: 0 <= i < |settled| ==> !Intersects(brick, settled[i])
    ensures ZMin(brick) == 1 || (MoveDown(brick, 1).Some? && Intersection(MoveDown(brick, 1).value, settled) != {})
  {
    var d := ZMin(b) - ZMin(brick);
    assert MoveDown(b, d).Some? && Intersection(MoveDown(b, d).value, settled) == {};
    forall i | 0 <= i < |settled| ensures !Intersects(brick, settled[i]) {
      assert i !in Intersection(brick, settled);
    }
  }

  /** The inner loop of the settling: lower the brick one step at a time while
      the lower copy exists and is clear of the settled bricks. */
  method DropOnto(b: Brick, settled: seq<Brick>) returns (brick: Brick)
    requires ZMin(b) >= 1
    requires forall i :: 0 <= i < |settled| ==> !Intersects(b, settled[i])
    ensures SameColumn(brick, b) && 1 <= ZMin(brick) <= ZMin(b)
    ensures forall i :: 0 <= i < |settled| ==> !Intersects(brick, settled[i])
    ensures ZMin(brick) == 1 || (MoveDown(brick, 1).Some? && Intersection(MoveDown(brick, 1).value, settled) != {})
    ensures DroppedTo(b, settled, brick)
  {
    ClearStart(b, settled);
    brick := b;
    var down := MoveDown(brick, 1);
    while down.Some? && Intersection(down.value, settled) == {}
      invariant ZMin(brick) <= ZMin(b)
      invariant down == MoveDown(brick, 1)
      invariant MoveDown(b, ZMin(b) - ZMin(brick)) == Some(brick)
      invariant ClearDown(b, settled, ZMin(b) - ZMin(brick))
      decreases ZMin(brick)
    {
      MoveDownTwice(b, ZMin(b) - ZMin(brick), 1);
      ClearDownStep(b, settled, ZMin(b) - ZMin(brick));
      brick := down.value;
      down := MoveDown(brick, 1);
    }
    DroppedToRests(b, settled, brick);
  }

  /** Appending the brick that settles in round `|settled|` extends a stack
      built round by round from `order`. */
  lemma SettledAppend(order: seq<Brick>, settled: seq<Brick>, brick: Brick)
    requires |settled| < |order|
    requires forall i :: 0 <= i < |settled| ==> SameColumn(settled[i], order[i]) && Settles(order[i], settled[..i], settled[i])
    requires SameColumn(brick, order[|settled|]) && Settles(order[|settled|], settled, brick)
    ensures forall i :: 0 <= i < |settled| + 1 ==>
      SameColumn((settled + [brick])[i], order[i]) && Settles(order[i], (settled + [brick])[..i], (settled + [brick])[i])
  {
    var next := settled + [brick];
    forall i | 0 <= i < |next| ensures SameColumn(next[i], order[i]) && Settles(order[i], next[..i], next[i]) {
      if i < |settled| {
        assert next[..i] == settled[..i] && next[i] == settled[i];
      } else {
        assert next[..i] == settled;
      }
    }
  }

  /** One round of the settling loop: jump to just above the highest settled
      brick, then drop. */
  method SettleOne(b: Brick, settled: seq<Brick>) returns (brick: Brick)
    requires Stable(settled)
    ensures SameColumn(brick, b) && Settles(b, settled, brick)
    ensures Stable(settled + [brick])
  {
    var top := Top(settled);
    assert top >= 1 by {
      if settled != [] {
        var i :| 0 <= i < |settled| && top == ZMax(settled[i]);
      }
    }
    var distance := ZMin(b) - top - 1;
    JumpLands(b, top);
    var jumped := MoveDown(b, distance).value;
    forall i | 0 <= i < |settled| ensures !Intersects(jumped, settled[i]) {
      AboveDoesNotIntersect(jumped, settled[i]);
    }
    brick := DropOnto(jumped, settled);
    StableAppend(settled, brick);
    SettlesIntro(b, settled, jumped, brick);
  }

  /** The settling loop: one brick per input brick, in ascending order of its
      original lowest z, each moved along z only, the whole stack stable, and
      each brick where the round for it leaves it. */
  method SettleBricks(bricks: seq<Brick>) returns (settled: seq<Brick>)
    ensures |settled| == |bricks|
    ensures forall i :: 0 <= i < |settled| ==> SameColumn(settled[i], SortByZMin(bricks)[i])
    ensures Stable(settled)
    ensures forall k :: 0 <= k < |settled| ==> Settles(SortByZMin(bricks)[k], settled[..k], settled[k])
  {
    var order := SortByZMin(bricks);
    settled := [];
    for k := 0 to |order|
      invariant |settled| == k
      invariant Stable(settled)
      invariant forall i :: 0 <= i < k ==> SameColumn(settled[i], order[i]) && Settles(order[i], settled[..i], settled[i])
    {
      var brick := SettleOne(order[k], settled);
      SettledAppend(order, settled, brick);
      settled := settled + [brick];
    }
  }
}
