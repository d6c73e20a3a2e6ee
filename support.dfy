/** `part1` of aoc/2023/22.py: which settled bricks hold up another brick on
    their own. Bricks are named by their index in the settled sequence. */
module Support {
  import opened Opt
  import opened Bricks
  import opened Settling

  /** The bricks directly under brick `i`: those its one-step-lower copy
      intersects, itself left out. A brick on the floor has none. */
  function Supporters(settled: seq<Brick>, i: nat): (r: set<nat>)
    requires i < |settled|
    ensures forall j :: j in r ==> j < |settled| && j != i
    ensures r != {} ==> ZMin(settled[i]) > 1
  {
    match MoveDown(settled[i], 1)
    case None => {}
    case Some(down) => Intersection(down, settled) - {i}
  }

  /** The bricks that are the only supporter of one of the first `k` bricks. */
  ghost function SoleSupporters(settled: seq<Brick>, k: nat): set<nat>
    requires k <= |settled|
  {
    set j: nat | j < |settled| && exists i :: 0 <= i < k && Supporters(settled, i) == {j}
  }

  lemma SoleSupportersStep(settled: seq<Brick>, k: nat)
    requires k < |settled|
    ensures SoleSupporters(settled, k + 1)
            == SoleSupporters(settled, k) + (if |Supporters(settled, k)| == 1 then Supporters(settled, k) else {})
  {
    var sup := Supporters(settled, k);
    var next := SoleSupporters(settled, k) + (if |sup| == 1 then sup else {});
    forall j | j in SoleSupporters(settled, k + 1) ensures j in next {
      var i :| 0 <= i < k + 1 && Supporters(settled, i) == {j};
      if i == k { assert |sup| == 1; }
    }
    forall j | j in next ensures j in SoleSupporters(settled, k + 1) {
      if j !in SoleSupporters(settled, k) {
        SingletonOfSizeOne(sup, j);
      }
    }
  }

  /** Bricks that cannot be removed without another brick falling. */
  ghost function Critical(settled: seq<Brick>): set<nat> {
    SoleSupporters(settled, |settled|)
  }

  /** A set of indices below `n` has at most `n` elements. */
  lemma {:induction false} IndicesBounded(s: set<nat>, n: nat)
    requires forall j :: j in s ==> j < n
    ensures |s| <= n
  {
    if n > 0 {
      IndicesBounded(s - {n - 1}, n - 1);
    } else {
      assert s == {};
    }
  }

  lemma SingletonOfSizeOne(s: set<nat>, x: nat)
    requires |s| == 1 && x in s
    ensures s == {x}
  {
    assert |s - {x}| == 0;
    assert s - {x} == {};
  }

  /** Some brick is critical exactly when some brick has a single supporter. */
  lemma CriticalExactlyWhenSoleSupported(settled: seq<Brick>)
    ensures Critical(settled) != {} <==> exists i :: 0 <= i < |settled| && |Supporters(settled, i)| == 1
  {
    if i :| 0 <= i < |settled| && |Supporters(settled, i)| == 1 {
      var j :| j in Supporters(settled, i);
      SingletonOfSizeOne(Supporters(settled, i), j);
      assert j in Critical(settled);
    }
    if j :| j in Critical(settled) {
      var i :| 0 <= i < |settled| && Supporters(settled, i) == {j};
      assert |Supporters(settled, i)| == 1;
    }
  }

  /** `part1` on the settled bricks: the number of bricks that are not the
      sole supporter of any brick. */
  method CountDisintegrable(settled: seq<Brick>) returns (count: int)
    ensures count == |settled| - |Critical(settled)|
    ensures 0 <= count <= |settled|
    ensures count < |settled| <==> exists i :: 0 <= i < |settled| && |Supporters(settled, i)| == 1
  {
    var supportBricks: set<nat> := {};
    for index := 0 to |settled|
      invariant supportBricks == SoleSupporters(settled, index)
    {
      SoleSupportersStep(settled, index);
      var down := MoveDown(settled[index], 1);
      if down.None? {
        continue;
      }
      var intersection := Intersection(down.value, settled) - {index};
      assert intersection == Supporters(settled, index);
      if |intersection| == 1 {
        var brick :| brick in intersection;
        SingletonOfSizeOne(intersection, brick);
        supportBricks := supportBricks + {brick};
      }
    }
    count := |settled| - |supportBricks|;
    IndicesBounded(supportBricks, |settled|);
    CriticalExactlyWhenSoleSupported(settled);
  }

  /** No brick occurs twice in the stack. */
  ghost predicate Distinct(settled: seq<Brick>) {
    forall i, j :: 0 <= i < j < |settled| ==> settled[i] != settled[j]
  }

  /** In a stable stack of drawn bricks no two bricks are equal: each brick
      meets itself, and no brick meets one that settled before it. */
  lemma SettledDistinct(settled: seq<Brick>)
    requires Stable(settled)
    requires forall i :: 0 <= i < |settled| ==> Drawn(settled[i])
    ensures Distinct(settled)
  {
    forall i, j | 0 <= i < j < |settled| ensures settled[i] != settled[j] {
      DrawnSelfIntersects(settled[j]);
      assert !Intersects(settled[j], settled[i]);
    }
  }

  /** The bricks at the indices in `s`, as values. */
  ghost function AtIndices(settled: seq<Brick>, s: set<nat>): set<Brick> {
    set j | j in s && j < |settled| :: settled[j]
  }

  /** Naming distinct bricks by value loses nothing: a set of indices and the
      set of the bricks at them have the same size. */
  lemma {:induction false} AtIndicesSize(settled: seq<Brick>, s: set<nat>)
    requires Distinct(settled)
    requires forall j :: j in s ==> j < |settled|
    ensures |AtIndices(settled, s)| == |s|
    decreases s
  {
    if s == {} {
      assert AtIndices(settled, s) == {};
    } else {
      var j :| j in s;
      AtIndicesSize(settled, s - {j});
      assert AtIndices(settled, s) == AtIndices(settled, s - {j}) + {settled[j]};
      assert settled[j] !in AtIndices(settled, s - {j}) by {
        forall k | k in s - {j} ensures settled[k] != settled[j] {
          assert k < j || j < k;
        }
      }
    }
  }

  /** `get_intersection(down_brick, settled_bricks[:index] + settled_bricks[index + 1:])`:
      the supporters of brick `i` as the source collects them, by value. */
  ghost function SupportingBricks(settled: seq<Brick>, i: nat): set<Brick>
    requires i < |settled|
  {
    match MoveDown(settled[i], 1)
    case None => {}
    case Some(down) => set b | b in settled[..i] + settled[i + 1..] && Intersects(down, b)
  }

  /** With no brick twice in the stack, the supporters by value are the bricks
      at the supporter indices. */
  lemma SupportersByValue(settled: seq<Brick>, i: nat)
    requires i < |settled| && Distinct(settled)
    ensures SupportingBricks(settled, i) == AtIndices(settled, Supporters(settled, i))
  {
    var others := settled[..i] + settled[i + 1..];
    assert forall b :: b in others <==> exists j :: 0 <= j < |settled| && j != i && settled[j] == b by {
      forall b | b in others ensures exists j :: 0 <= j < |settled| && j != i && settled[j] == b {
        var k :| 0 <= k < |others| && others[k] == b;
        if k < i { assert settled[k] == b; } else { assert settled[k + 1] == b; }
      }
      forall j | 0 <= j < |settled| && j != i ensures settled[j] in others {
        if j < i { assert others[j] == settled[j]; } else { assert others[j - 1] == settled[j]; }
      }
    }
    if MoveDown(settled[i], 1).Some? {
      var down := MoveDown(settled[i], 1).value;
      forall b | b in SupportingBricks(settled, i) ensures b in AtIndices(settled, Supporters(settled, i)) {
        var j :| 0 <= j < |settled| && j != i && settled[j] == b;
        assert j in Supporters(settled, i);
      }
      forall b | b in AtIndices(settled, Supporters(settled, i)) ensures b in SupportingBricks(settled, i) {
        var j :| j in Supporters(settled, i) && j < |settled| && settled[j] == b;
        assert b in others;
      }
    }
  }

  /** In a stable stack of normalized bricks every supporter lies wholly below
      the brick it supports, so support never goes round in a cycle. */
  lemma SupporterIsBelow(settled: seq<Brick>, k: nat, j: nat)
    requires Stable(settled) && k < |settled|
    requires forall i :: 0 <= i < |settled| ==> Normalized(settled[i])
    requires j in Supporters(settled, k)
    ensures ZMax(settled[j]) < ZMin(settled[k])
  {
    var a, b := settled[k], settled[j];
    var down := MoveDown(a, 1).value;
    assert Intersects(down, b);
    assert !Intersects(a, b) by {
      if j < k {
        assert !Intersects(settled[k], settled[j]);
      } else {
        assert !Intersects(settled[j], settled[k]);
        IntersectsSymmetric(a, b);
      }
    }
    assert Normalized(a) && Normalized(b);
    if OverlapsAcross(down, b, 0) {
      assert !OverlapsAcross(a, b, 0);
    } else if OverlapsAcross(down, b, 1) {
      assert !OverlapsAcross(a, b, 1);
    } else {
      assert OverlapsAcross(down, b, 2);
    }
  }
}
