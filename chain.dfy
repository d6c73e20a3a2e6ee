/** `part2` of aoc/2023/22.py: the support graph of the settled bricks, and
    for each removed brick the chain reaction of bricks that fall with it. */
module ChainReaction {
  import opened Bricks
  import opened Settling
  import opened Support

  /** `graph[j]` lists the bricks that brick `j` holds up. */
  type Graph = seq<seq<nat>>

  /** Every listed brick exists and no list names a brick twice. */
  ghost predicate ValidGraph(g: Graph) {
    forall j :: 0 <= j < |g| ==> ValidList(g[j], |g|)
  }

  /** Edge `t` out of `j` goes strictly up in `height`. */
  ghost predicate EdgeUp(g: Graph, height: seq<int>, j: int, t: int)
    requires |height| == |g| && 0 <= j < |g| && 0 <= t < |g[j]|
  {
    g[j][t] < |g| ==> height[j] < height[g[j][t]]
  }

  /** Every edge goes strictly up in `height`: the graph has no cycle. */
  ghost predicate Layered(g: Graph, height: seq<int>) {
    && |height| == |g|
    && forall j, t :: 0 <= j < |g| && 0 <= t < |g[j]| ==> EdgeUp(g, height, j, t)
  }

  /** The direct supporters of `x` in the graph. */
  ghost function Preds(g: Graph, x: nat): set<nat> {
    set j: nat | j < |g| && x in g[j]
  }

  /** `fallen` is closed under the chain reaction started by removing `r`: a
      brick that has supporters, all of them `r` or fallen, has fallen too. */
  ghost predicate Closed(g: Graph, r: nat, fallen: set<nat>) {
    forall x: nat :: x < |g| && Preds(g, x) != {} && Preds(g, x) <= fallen + {r} ==> x in fallen
  }

  /** `x` is in every closed set. */
  ghost predicate MustFall(g: Graph, r: nat, x: nat) {
    forall f :: Closed(g, r, f) ==> x in f
  }

  /** The bricks that fall when `r` is removed: the least closed set. */
  ghost function FallSet(g: Graph, r: nat): set<nat> {
    set x: nat | x < |g| && MustFall(g, r, x)
  }

  /** The trial for a brick that supports nothing drops nothing. */
  lemma NoDependentsNoFalls(g: Graph, r: nat)
    requires r < |g| && g[r] == []
    ensures FallSet(g, r) == {}
  {
    forall x: nat | x < |g| ensures r !in Preds(g, x) {
      assert x !in g[r];
    }
    assert Closed(g, r, {});
  }

  /** The answer of `part2`: the fall counts of all trials, summed. */
  ghost function TotalFalls(g: Graph, m: nat): int
    requires m <= |g|
  {
    if m == 0 then 0 else TotalFalls(g, m - 1) + |FallSet(g, m - 1)|
  }

  /** The supporters of every settled brick, by index. */
  function SupportSets(settled: seq<Brick>): (r: seq<set<nat>>)
    ensures |r| == |settled|
    ensures forall i :: 0 <= i < |r| ==> r[i] == Supporters(settled, i)
  {
    seq(|settled|, i requires 0 <= i < |settled| => Supporters(settled, i))
  }

  /** The bricks among the first `m` that `j` supports, in index order. */
  function DependentsUpTo(sups: seq<set<nat>>, j: nat, m: nat): (r: seq<nat>)
    requires m <= |sups|
  {
    if m == 0 then []
    else DependentsUpTo(sups, j, m - 1) + (if j in sups[m - 1] then [m - 1] else [])
  }

  /** The graph the source builds: supporter to supported. */
  function GraphOf(sups: seq<set<nat>>): Graph {
    seq(|sups|, j requires 0 <= j < |sups| => DependentsUpTo(sups, j, |sups|))
  }

  function SupportGraph(settled: seq<Brick>): Graph {
    GraphOf(SupportSets(settled))
  }

  /** `DependentsUpTo` lists exactly the bricks below `m` that `j` supports,
      in strictly increasing order. */
  lemma {:induction false} DependentsUpToSpec(sups: seq<set<nat>>, j: nat, m: nat)
    requires m <= |sups|
    ensures forall k: nat :: k in DependentsUpTo(sups, j, m) <==> k < m && j in sups[k]
    ensures forall s, t :: 0 <= s < t < |DependentsUpTo(sups, j, m)| ==>
              DependentsUpTo(sups, j, m)[s] < DependentsUpTo(sups, j, m)[t]
  {
    if m > 0 {
      DependentsUpToSpec(sups, j, m - 1);
      var prev := DependentsUpTo(sups, j, m - 1);
      forall s | 0 <= s < |prev| ensures prev[s] < m - 1 {
        assert prev[s] in prev;
      }
    }
  }

  /** The graph is valid, and its edges are exactly the support relation. */
  lemma GraphOfSpec(sups: seq<set<nat>>)
    ensures ValidGraph(GraphOf(sups))
    ensures forall k: nat, j: nat :: k < |sups| ==> (j in Preds(GraphOf(sups), k) <==> j in sups[k] && j < |sups|)
  {
    var g := GraphOf(sups);
    forall j | 0 <= j < |sups| ensures ValidList(g[j], |sups|) {
      DependentsUpToSpec(sups, j, |sups|);
      assert g[j] == DependentsUpTo(sups, j, |sups|);
      forall t | 0 <= t < |g[j]| ensures g[j][t] < |sups| {
        assert g[j][t] in g[j];
      }
    }
    forall k: nat, j: nat | k < |sups| ensures j in Preds(g, k) <==> j in sups[k] && j < |sups| {
      if j < |sups| {
        DependentsUpToSpec(sups, j, |sups|);
        assert g[j] == DependentsUpTo(sups, j, |sups|);
      }
    }
  }

  /** A list of bricks below `n` that names no brick twice. */
  ghost predicate ValidList(list: seq<nat>, n: nat) {
    && (forall t :: 0 <= t < |list| ==> list[t] < n)
    && (forall s, t :: 0 <= s < t < |list| ==> list[s] != list[t])
  }

  /** The support graph's edges are exactly the support relation. */
  lemma SupportGraphSpec(settled: seq<Brick>)
    ensures ValidGraph(SupportGraph(settled))
    ensures forall k: nat :: k < |settled| ==> Preds(SupportGraph(settled), k) == Supporters(settled, k)
  {
    var sups := SupportSets(settled);
    GraphOfSpec(sups);
  }

  /** In a stable stack of normalized bricks, the support graph is layered by
      lowest z. */
  lemma SupportGraphLayered(settled: seq<Brick>)
    requires Stable(settled)
    requires forall i :: 0 <= i < |settled| ==> Normalized(settled[i])
    ensures Layered(SupportGraph(settled), seq(|settled|, i requires 0 <= i < |settled| => ZMin(settled[i])))
  {
    var g := SupportGraph(settled);
    var height := seq(|settled|, i requires 0 <= i < |settled| => ZMin(settled[i]));
    forall j, t | 0 <= j < |g| && 0 <= t < |g[j]| ensures EdgeUp(g, height, j, t) {
      var k := g[j][t];
      var sups := SupportSets(settled);
      DependentsUpToSpec(sups, j, |settled|);
      assert k in DependentsUpTo(sups, j, |settled|);
      SupporterIsBelow(settled, k, j);
    }
  }

  /** Building `graph`: each brick is appended to the list of each of its supporters. */
  method BuildGraph(settled: seq<Brick>) returns (graph: Graph)
    ensures graph == SupportGraph(settled)
  {
    ghost var sups := SupportSets(settled);
    graph := seq(|settled|, _ => []);
    for index := 0 to |settled|
      invariant |graph| == |settled|
      invariant forall j :: 0 <= j < |graph| ==> graph[j] == DependentsUpTo(sups, j, index)
    {
      var down := MoveDown(settled[index], 1);
      if down.None? {
        assert sups[index] == {};
        continue;
      }
      var supporters := Intersection(down.value, settled) - {index};
      assert supporters == sups[index];
      var rest := supporters;
      while rest != {}
        invariant rest <= supporters && |graph| == |settled|
        invariant forall j :: 0 <= j < |graph| ==>
          graph[j] == DependentsUpTo(sups, j, index) + (if j in supporters - rest then [index] else [])
        decreases rest
      {
        var supportBrick :| supportBrick in rest;
        graph := graph[supportBrick := graph[supportBrick] + [index]];
        rest := rest - {supportBrick};
      }
    }
  }

  /** The supporters of `x` among the first `m` lists. */
  ghost function PredsBelow(g: Graph, x: nat, m: nat): set<nat> {
    set j: nat | j < m && j < |g| && x in g[j]
  }

  lemma PredsBelowStep(g: Graph, x: nat, m: nat)
    requires m < |g|
    ensures |PredsBelow(g, x, m + 1)| == |PredsBelow(g, x, m)| + (if x in g[m] then 1 else 0)
  {
    if x in g[m] {
      PredsBelowGrow(g, x, m);
    } else {
      PredsBelowSame(g, x, m);
    }
  }

  lemma PredsBelowGrow(g: Graph, x: nat, m: nat)
    requires m < |g| && x in g[m]
    ensures m !in PredsBelow(g, x, m) && PredsBelow(g, x, m + 1) == PredsBelow(g, x, m) + {m}
  {
    forall j | j in PredsBelow(g, x, m + 1) ensures j in PredsBelow(g, x, m) + {m} {
      assert j < m + 1;
    }
  }

  lemma PredsBelowSame(g: Graph, x: nat, m: nat)
    requires m < |g| && x !in g[m]
    ensures PredsBelow(g, x, m + 1) == PredsBelow(g, x, m)
  {
    forall j | j in PredsBelow(g, x, m + 1) ensures j in PredsBelow(g, x, m) {
      assert j != m;
    }
  }

  /** The in-degree count of one trial, computed afresh from the whole graph:
      the number of supporters of every brick. */
  method InDegrees(g: Graph) returns (inDegree: array<int>)
    requires ValidGraph(g)
    ensures fresh(inDegree) && inDegree.Length == |g|
    ensures forall x :: 0 <= x < |g| ==> inDegree[x] == |Preds(g, x)|
  {
    inDegree := new int[|g|](_ => 0);
    for j := 0 to |g|
      invariant forall x :: 0 <= x < |g| ==> inDegree[x] == |PredsBelow(g, x, j)|
    {
      assert ValidList(g[j], |g|);
      for t := 0 to |g[j]|
        invariant forall x :: 0 <= x < |g| ==> inDegree[x] == |PredsBelow(g, x, j)| + (if x in g[j][..t] then 1 else 0)
      {
        var next := g[j][t];
        assert g[j][..t + 1] == g[j][..t] + [next];
        assert next !in g[j][..t];
        inDegree[next] := inDegree[next] + 1;
      }
      assert g[j][..|g[j]|] == g[j];
      forall x | 0 <= x < |g| ensures inDegree[x] == |PredsBelow(g, x, j + 1)| {
        PredsBelowStep(g, x, j);
      }
    }
    forall x | 0 <= x < |g| ensures PredsBelow(g, x, |g|) == Preds(g, x) {
    }
  }

  lemma RemoveOne(a: set<nat>, done: set<nat>, y: nat)
    requires y in a && y !in done
    ensures |a - (done + {y})| == |a - done| - 1
  {
    assert a - done == (a - (done + {y})) + {y};
  }

  lemma NoneLeft(a: set<nat>, done: set<nat>)
    requires |a - done| == 0
    ensures a <= done
  {
    forall x | x in a ensures x in done {
      assert x !in a - done;
    }
  }

  /** `deg[x]` counts the supporters of `x` not yet popped. */
  ghost predicate Remaining(g: Graph, deg: seq<int>, popped: set<nat>) {
    |deg| == |g| && forall x {:trigger deg[x]} :: 0 <= x < |g| ==> deg[x] == |Preds(g, x) - popped|
  }

  /** The same while `node` releases its first `t` dependents. */
  ghost predicate RemainingDuring(g: Graph, deg: seq<int>, popped: set<nat>, node: nat, t: nat)
    requires node < |g| && t <= |g[node]|
  {
    |deg| == |g| &&
    forall x {:trigger deg[x]} :: 0 <= x < |g| ==> deg[x] == |Preds(g, x) - popped| - (if x in g[node][..t] then 1 else 0)
  }

  /** The stack holds, without repetition, exactly the members that are not
      yet popped. */
  ghost predicate StackHolds(stack: seq<nat>, popped: set<nat>, members: set<nat>) {
    && popped <= members
    && (forall i :: 0 <= i < |stack| ==> stack[i] !in popped && stack[i] in members)
    && (forall i, k :: 0 <= i < k < |stack| ==> stack[i] != stack[k])
    && (forall x :: x in members ==> x in popped || x in stack)
  }

  /** The marked bricks are exactly those with supporters and a count of zero. */
  ghost predicate Counted(g: Graph, deg: seq<int>, fallen: set<nat>)
    requires |deg| == |g|
  {
    forall x {:trigger deg[x]} :: 0 <= x < |g| ==> (x in fallen <==> Preds(g, x) != {} && deg[x] == 0)
  }

  /** The marked bricks all sit higher than the removed one. */
  ghost predicate Above(height: seq<int>, removed: nat, fallen: set<nat>)
    requires removed < |height|
  {
    forall x :: x in fallen ==> x < |height| && height[x] > height[removed]
  }

  /** The marked bricks lie in every closed set: each of them must fall. */
  ghost predicate Forced(g: Graph, removed: nat, fallen: set<nat>) {
    forall f :: Closed(g, removed, f) ==> fallen <= f
  }

  /** What the cascade knows about the bricks it has marked as fallen. */
  ghost predicate FallenSoFar(g: Graph, removed: nat, height: seq<int>, deg: seq<int>, fallen: set<nat>)
    requires |deg| == |g| && |height| == |g| && removed < |g|
  {
    Counted(g, deg, fallen) && Above(height, removed, fallen) && Forced(g, removed, fallen)
  }

  /** The state of the cascade between two pops. */
  ghost predicate BetweenPops(g: Graph, removed: nat, height: seq<int>, deg: seq<int>,
                              popped: set<nat>, fallen: set<nat>, stack: seq<nat>)
  {
    && ValidGraph(g) && removed < |g| && Layered(g, height) && |deg| == |g|
    && Remaining(g, deg, popped)
    && FallenSoFar(g, removed, height, deg, fallen)
    && StackHolds(stack, popped, fallen + {removed})
    && (forall x :: x in popped ==> x < |g|)
  }

  /** The state of the cascade after releasing the first `t` bricks that `node` holds up. */
  ghost predicate Releasing(g: Graph, removed: nat, height: seq<int>, deg: seq<int>,
                            popped: set<nat>, fallen: set<nat>, stack: seq<nat>, node: nat, t: nat)
  {
    && ValidGraph(g) && removed < |g| && Layered(g, height) && |deg| == |g|
    && node < |g| && t <= |g[node]| && node !in popped && height[node] >= height[removed]
    && RemainingDuring(g, deg, popped, node, t)
    && FallenSoFar(g, removed, height, deg, fallen)
    && StackHolds(stack, popped + {node}, fallen + {removed})
    && (forall x :: x in popped ==> x < |g|)
  }

  lemma PopStep(g: Graph, removed: nat, height: seq<int>, deg: seq<int>,
                popped: set<nat>, fallen: set<nat>, stack: seq<nat>)
    requires BetweenPops(g, removed, height, deg, popped, fallen, stack) && stack != []
    ensures Releasing(g, removed, height, deg, popped, fallen, stack[..|stack| - 1], stack[|stack| - 1], 0)
  {
    var node, rest := stack[|stack| - 1], stack[..|stack| - 1];
    assert node in fallen + {removed};
    forall x | x in fallen + {removed} ensures x in popped + {node} || x in rest {
      if x !in popped && x != node {
        var i :| 0 <= i < |stack| && stack[i] == x;
      }
    }
    assert ValidGraph(g) && removed < |g| && Layered(g, height) && |deg| == |g|;
    assert node < |g| && 0 <= |g[node]| && node !in popped && height[node] >= height[removed];
    assert RemainingDuring(g, deg, popped, node, 0);
    assert FallenSoFar(g, removed, height, deg, fallen);
    assert StackHolds(rest, popped + {node}, fallen + {removed});
    assert (forall x :: x in popped ==> x < |g|);
  }

  /** Releasing the `t`-th brick that `node` holds up lowers its count by one. */
  lemma DegreeStep(g: Graph, deg: seq<int>, popped: set<nat>, node: nat, t: nat)
    requires ValidGraph(g) && node < |g| && t < |g[node]| && |deg| == |g| && node !in popped
    requires RemainingDuring(g, deg, popped, node, t)
    ensures g[node][t] < |g| && deg[g[node][t]] >= 1
    ensures var deg' := deg[g[node][t] := deg[g[node][t]] - 1];
            RemainingDuring(g, deg', popped, node, t + 1)
  {
    var next := g[node][t];
    assert ValidList(g[node], |g|);
    assert g[node][..t + 1] == g[node][..t] + [next];
    assert next !in g[node][..t];
    assert node in Preds(g, next) - popped;
  }

  /** A brick whose count stays above zero is still not marked. */
  lemma CountedKeep(g: Graph, deg: seq<int>, fallen: set<nat>, next: nat)
    requires |deg| == |g| && next < |g| && deg[next] >= 2 && Counted(g, deg, fallen)
    ensures Counted(g, deg[next := deg[next] - 1], fallen)
  {
    var deg' := deg[next := deg[next] - 1];
    forall x | 0 <= x < |g| ensures x in fallen <==> Preds(g, x) != {} && deg'[x] == 0 {
      assert deg[x] == 0 ==> deg'[x] == 0;
    }
  }

  /** A brick whose count drops to zero becomes marked. */
  lemma CountedAdd(g: Graph, deg: seq<int>, fallen: set<nat>, next: nat)
    requires |deg| == |g| && next < |g| && deg[next] == 1 && Preds(g, next) != {} && Counted(g, deg, fallen)
    ensures next !in fallen && Counted(g, deg[next := 0], fallen + {next})
  {
    var deg' := deg[next := 0];
    assert deg[next] != 0;
    forall x | 0 <= x < |g| ensures x in fallen + {next} <==> Preds(g, x) != {} && deg'[x] == 0 {
      assert x != next ==> deg'[x] == deg[x];
    }
  }

  /** A brick with supporters, all of them removed or forced to fall, is forced to fall. */
  lemma ForcedAdd(g: Graph, removed: nat, fallen: set<nat>, next: nat)
    requires next < |g| && Preds(g, next) != {} && Preds(g, next) <= fallen + {removed}
    requires Forced(g, removed, fallen)
    ensures Forced(g, removed, fallen + {next})
  {
    forall f | Closed(g, removed, f) ensures fallen + {next} <= f {
      assert fallen <= f;
      assert Preds(g, next) <= f + {removed};
    }
  }

  /** A brick whose last supporter `node` has just been popped must fall. */
  lemma AddFallen(g: Graph, removed: nat, height: seq<int>, deg: seq<int>,
                  popped: set<nat>, fallen: set<nat>, node: nat, t: nat)
    requires ValidGraph(g) && Layered(g, height) && removed < |g| && |deg| == |g|
    requires node < |g| && t < |g[node]| && g[node][t] < |g| && node !in popped
    requires height[node] >= height[removed] && popped + {node} <= fallen + {removed}
    requires deg[g[node][t]] == 1 && |Preds(g, g[node][t]) - (popped + {node})| == 0
    requires FallenSoFar(g, removed, height, deg, fallen)
    ensures g[node][t] !in fallen
    ensures FallenSoFar(g, removed, height, deg[g[node][t] := 0], fallen + {g[node][t]})
  {
    var next := g[node][t];
    assert EdgeUp(g, height, node, t);
    assert node in Preds(g, next);
    NoneLeft(Preds(g, next), popped + {node});
    CountedAdd(g, deg, fallen, next);
    ForcedAdd(g, removed, fallen, next);
    assert Above(height, removed, fallen + {next});
  }

  /** Pushing a new member keeps the stack without repetition. */
  lemma StackPush(stack: seq<nat>, popped: set<nat>, members: set<nat>, x: nat)
    requires StackHolds(stack, popped, members) && x !in members
    ensures StackHolds(stack + [x], popped, members + {x})
  {
    var stack' := stack + [x];
    forall i | 0 <= i < |stack| ensures stack'[i] != x {
      assert stack[i] in members;
    }
    assert forall y :: y in stack' <==> y in stack || y == x;
  }

  /** Releasing a brick that still has other supporters left keeps the state. */
  lemma ReleaseKeeps(g: Graph, removed: nat, height: seq<int>, deg: seq<int>,
                     popped: set<nat>, fallen: set<nat>, stack: seq<nat>, node: nat, t: nat)
    requires Releasing(g, removed, height, deg, popped, fallen, stack, node, t) && t < |g[node]|
    requires g[node][t] < |g| && deg[g[node][t]] != 1
    ensures Releasing(g, removed, height, deg[g[node][t] := deg[g[node][t]] - 1], popped, fallen, stack, node, t + 1)
  {
    DegreeStep(g, deg, popped, node, t);
    CountedKeep(g, deg, fallen, g[node][t]);
  }

  /** Releasing a brick whose last supporter this was marks it and pushes it. */
  lemma ReleaseFalls(g: Graph, removed: nat, height: seq<int>, deg: seq<int>,
                     popped: set<nat>, fallen: set<nat>, stack: seq<nat>, node: nat, t: nat)
    requires Releasing(g, removed, height, deg, popped, fallen, stack, node, t) && t < |g[node]|
    requires g[node][t] < |g| && deg[g[node][t]] == 1
    ensures g[node][t] !in fallen
    ensures Releasing(g, removed, height, deg[g[node][t] := deg[g[node][t]] - 1], popped, fallen + {g[node][t]},
                      stack + [g[node][t]], node, t + 1)
  {
    DegreeStep(g, deg, popped, node, t);
    var next := g[node][t];
    assert |Preds(g, next) - (popped + {node})| == 0 by {
      RemoveOne(Preds(g, next), popped, node);
      assert next in g[node][..t + 1];
    }
    AddFallen(g, removed, height, deg, popped, fallen, node, t);
    StackPush(stack, popped + {node}, fallen + {removed}, next);
    assert fallen + {next} + {removed} == fallen + {removed} + {next};
    var deg' := deg[next := deg[next] - 1];
    assert deg' == deg[next := 0];
    assert RemainingDuring(g, deg', popped, node, t + 1);
    assert FallenSoFar(g, removed, height, deg', fallen + {next});
  }

  /** Once every brick `node` holds up is released, the counts are those with `node` popped. */
  lemma DegreesAfterNode(g: Graph, deg: seq<int>, popped: set<nat>, node: nat)
    requires node < |g| && |deg| == |g| && node !in popped
    requires RemainingDuring(g, deg, popped, node, |g[node]|)
    ensures Remaining(g, deg, popped + {node})
  {
    assert g[node][..|g[node]|] == g[node];
    forall x | 0 <= x < |g| ensures deg[x] == |Preds(g, x) - (popped + {node})| {
      if x in g[node] {
        RemoveOne(Preds(g, x), popped, node);
      } else {
        assert Preds(g, x) - (popped + {node}) == Preds(g, x) - popped;
      }
    }
  }

  lemma FinishNode(g: Graph, removed: nat, height: seq<int>, deg: seq<int>,
                   popped: set<nat>, fallen: set<nat>, stack: seq<nat>, node: nat)
    requires node < |g| && Releasing(g, removed, height, deg, popped, fallen, stack, node, |g[node]|)
    ensures BetweenPops(g, removed, height, deg, popped + {node}, fallen, stack)
  {
    DegreesAfterNode(g, deg, popped, node);
  }

  /** When the stack runs empty the marked bricks are exactly the fall set. */
  lemma Conclude(g: Graph, removed: nat, height: seq<int>, deg: seq<int>,
                 popped: set<nat>, fallen: set<nat>)
    requires BetweenPops(g, removed, height, deg, popped, fallen, [])
    ensures fallen == FallSet(g, removed) && |fallen| < |g|
  {
    assert popped == fallen + {removed};
    assert Closed(g, removed, fallen) by {
      forall x: nat | x < |g| && Preds(g, x) != {} && Preds(g, x) <= fallen + {removed} ensures x in fallen {
        assert deg[x] == |Preds(g, x) - popped|;
        assert Preds(g, x) - popped == {};
      }
    }
    forall x | x in FallSet(g, removed) ensures x in fallen {
      assert MustFall(g, removed, x);
    }
    IndicesBounded(fallen + {removed}, |g|);
  }

  lemma EdgeInRange(g: Graph, node: nat, t: nat)
    requires ValidGraph(g) && node < |g| && t < |g[node]|
    ensures g[node][t] < |g|
  {
    assert ValidList(g[node], |g|);
  }

  /** `in_degree[next_node] -= 1`. */
  method Decrement(inDegree: array<int>, next: nat)
    requires next < inDegree.Length
    modifies inDegree
    ensures inDegree[..] == old(inDegree[..])[next := old(inDegree[..])[next] - 1]
  {
    inDegree[next] := inDegree[next] - 1;
  }

  /** The inner loop of one trial: release every brick that `node` holds up,
      pushing those whose last supporter this was. */
  method ReleaseDependents(g: Graph, removed: nat, ghost height: seq<int>, inDegree: array<int>,
                           node: nat, stack0: seq<nat>, falls0: nat,
                           ghost popped: set<nat>, ghost fallen0: set<nat>)
    returns (stack: seq<nat>, falls: nat, ghost fallen: set<nat>)
    requires inDegree.Length == |g|
    requires Releasing(g, removed, height, inDegree[..], popped, fallen0, stack0, node, 0)
    requires falls0 == |fallen0|
    modifies inDegree
    ensures Releasing(g, removed, height, inDegree[..], popped, fallen, stack, node, |g[node]|)
    ensures falls == |fallen|
  {
    stack, falls, fallen := stack0, falls0, fallen0;
    for t := 0 to |g[node]|
      invariant Releasing(g, removed, height, inDegree[..], popped, fallen, stack, node, t)
      invariant falls == |fallen|
    {
      ghost var deg := inDegree[..];
      EdgeInRange(g, node, t);
      var next := g[node][t];
      Decrement(inDegree, next);
      assert inDegree[next] == deg[next] - 1;
      if inDegree[next] == 0 {
        ReleaseFalls(g, removed, height, deg, popped, fallen, stack, node, t);
        falls := falls + 1;
        stack := stack + [next];
        fallen := fallen + {next};
      } else {
        ReleaseKeeps(g, removed, height, deg, popped, fallen, stack, node, t);
      }
    }
  }

  /** One trial of `part2`: remove brick `removed` and let the bricks whose
      supporters have all fallen fall in turn. The count is the size of the
      least closed fall set, which never holds the removed brick. */
  method CountFalls(g: Graph, removed: nat, ghost height: seq<int>) returns (falls: nat)
    requires ValidGraph(g) && removed < |g| && Layered(g, height)
    ensures falls == |FallSet(g, removed)| && falls < |g|
  {
    var inDegree := InDegrees(g);
    var stack := [removed];
    falls := 0;
    ghost var popped: set<nat> := {};
    ghost var fallen: set<nat> := {};
    while |stack| > 0
      invariant inDegree.Length == |g|
      invariant BetweenPops(g, removed, height, inDegree[..], popped, fallen, stack)
      invariant falls == |fallen|
      decreases |g| - |popped|
    {
      PopStep(g, removed, height, inDegree[..], popped, fallen, stack);
      var node := stack[|stack| - 1];
      stack := stack[..|stack| - 1];
      stack, falls, fallen := ReleaseDependents(g, removed, height, inDegree, node, stack, falls, popped, fallen);
      FinishNode(g, removed, height, inDegree[..], popped, fallen, stack, node);
      popped := popped + {node};
      IndicesBounded(popped, |g|);
    }
    Conclude(g, removed, height, inDegree[..], popped, fallen);
  }

  /** The outer loop of `part2`: one trial per brick that holds something up,
      the fall counts summed. A brick that holds nothing up is not a key of
      the graph and is skipped, which changes nothing since its trial drops
      nothing. */
  method SumOfFalls(g: Graph, ghost height: seq<int>) returns (total: int)
    requires ValidGraph(g) && Layered(g, height)
    ensures total == TotalFalls(g, |g|)
  {
    total := 0;
    for removed := 0 to |g|
      invariant total == TotalFalls(g, removed)
    {
      if g[removed] != [] {
        var falls := CountFalls(g, removed, height);
        total := total + falls;
      } else {
        NoDependentsNoFalls(g, removed);
      }
    }
  }

  lemma SubsetOfSingleton(s: set<nat>, j: nat)
    requires s != {} && s <= {j}
    ensures s == {j}
  {
    var y :| y in s;
    assert y == j;
  }

  /** The two parts agree: a brick is one that `part1` may not disintegrate
      exactly when removing it makes some other brick fall in `part2`. */
  lemma CriticalIffSomethingFalls(settled: seq<Brick>, j: nat)
    requires j < |settled|
    ensures j in Critical(settled) <==> FallSet(SupportGraph(settled), j) != {}
  {
    var g := SupportGraph(settled);
    SupportGraphSpec(settled);
    forall x: nat | x < |g| && Preds(g, x) != {} && Preds(g, x) <= {j} ensures j in Critical(settled) {
      SubsetOfSingleton(Preds(g, x), j);
      assert Supporters(settled, x) == {j};
    }
    if j in Critical(settled) {
      var i :| 0 <= i < |settled| && Supporters(settled, i) == {j};
      forall f | Closed(g, j, f) ensures i in f {
        assert Preds(g, i) <= f + {j};
      }
      assert MustFall(g, j, i);
      assert i in FallSet(g, j);
    } else {
      assert Closed(g, j, {});
    }
  }

  /** The members of `c` below `m`. */
  ghost function Below(c: set<nat>, m: nat): set<nat> {
    set j: nat | j < m && j in c
  }

  /** When every brick of `c` drops something in its trial, the first `m`
      trials drop at least as many bricks as `c` has below `m`. */
  lemma {:induction false} FallsAtLeast(g: Graph, c: set<nat>, m: nat)
    requires m <= |g|
    requires forall j :: j in c && j < |g| ==> |FallSet(g, j)| >= 1
    ensures TotalFalls(g, m) >= |Below(c, m)|
  {
    if m == 0 {
      BelowZero(c);
    } else {
      FallsAtLeast(g, c, m - 1);
      BelowStep(c, m - 1);
    }
  }

  lemma BelowZero(c: set<nat>)
    ensures |Below(c, 0)| == 0
  {
    assert Below(c, 0) == {};
  }

  lemma BelowStep(c: set<nat>, m: nat)
    ensures |Below(c, m + 1)| == |Below(c, m)| + (if m in c then 1 else 0)
  {
    if m in c {
      assert Below(c, m + 1) == Below(c, m) + {m};
    } else {
      assert Below(c, m + 1) == Below(c, m);
    }
  }

  /** Every critical brick drops at least one other brick in its trial, so
      the answer of `part2` is at least the number of bricks `part1` keeps. */
  lemma PartsAgree(settled: seq<Brick>)
    ensures TotalFalls(SupportGraph(settled), |settled|) >= |Critical(settled)|
  {
    var c := Critical(settled);
    forall j | j in c && j < |settled| ensures |FallSet(SupportGraph(settled), j)| >= 1 {
      CriticalIffSomethingFalls(settled, j);
    }
    FallsAtLeast(SupportGraph(settled), c, |settled|);
    assert Below(c, |settled|) == c;
  }
}
