/** The two answers of aoc/2023/22.py, from the bricks as parsed. */
module SandSlabs {
  import opened Bricks
  import opened Settling
  import opened Support
  import opened ChainReaction

  /** Settling moves a brick along z only, so a drawn brick (a line with
      sorted endpoints) stays drawn. */
  lemma SettledDrawn(bricks: seq<Brick>, settled: seq<Brick>)
    requires forall i :: 0 <= i < |bricks| ==> Drawn(bricks[i])
    requires |settled| == |bricks|
    requires forall i :: 0 <= i < |settled| ==> SameColumn(settled[i], SortByZMin(bricks)[i])
    ensures forall i :: 0 <= i < |settled| ==> Drawn(settled[i])
  {
    var sorted := SortByZMin(bricks);
    forall i | 0 <= i < |settled| ensures Drawn(settled[i]) {
      assert sorted[i] in multiset(bricks);
      var k :| 0 <= k < |bricks| && bricks[k] == sorted[i];
    }
  }

  /** `part1`: the number of settled bricks that can be removed alone without
      another brick falling. The source collects supporters as brick values;
      no brick occurs twice, so those sets are the index sets by value. */
  method Part1(bricks: seq<Brick>) returns (count: int, settled: seq<Brick>)
    requires forall i :: 0 <= i < |bricks| ==> Drawn(bricks[i])
    ensures |settled| == |bricks| && Stable(settled)
    ensures forall i :: 0 <= i < |settled| ==> SameColumn(settled[i], SortByZMin(bricks)[i])
    ensures forall k :: 0 <= k < |settled| ==> Settles(SortByZMin(bricks)[k], settled[..k], settled[k])
    ensures Distinct(settled)
    ensures forall i :: 0 <= i < |settled| ==> SupportingBricks(settled, i) == AtIndices(settled, Supporters(settled, i))
    ensures count == |settled| - |Critical(settled)| == |settled| - |AtIndices(settled, Critical(settled))|
    ensures 0 <= count <= |bricks|
    ensures count == |bricks| <==> forall i :: 0 <= i < |settled| ==> |Supporters(settled, i)| != 1
  {
    settled := SettleBricks(bricks);
    count := CountDisintegrable(settled);
    SettledDrawn(bricks, settled);
    SettledDistinct(settled);
    forall i | 0 <= i < |settled| ensures SupportingBricks(settled, i) == AtIndices(settled, Supporters(settled, i)) {
      SupportersByValue(settled, i);
    }
    AtIndicesSize(settled, Critical(settled));
  }

  /** `part2`: over every brick, the number of other bricks that fall when it
      is removed, summed. */
  method Part2(bricks: seq<Brick>) returns (total: int, settled: seq<Brick>)
    requires forall i :: 0 <= i < |bricks| ==> Drawn(bricks[i])
    ensures |settled| == |bricks| && Stable(settled)
    ensures forall i :: 0 <= i < |settled| ==> SameColumn(settled[i], SortByZMin(bricks)[i])
    ensures forall k :: 0 <= k < |settled| ==> Settles(SortByZMin(bricks)[k], settled[..k], settled[k])
    ensures Distinct(settled)
    ensures total == TotalFalls(SupportGraph(settled), |settled|)
    ensures total >= |Critical(settled)|
  {
    settled := SettleBricks(bricks);
    SettledDrawn(bricks, settled);
    SettledDistinct(settled);
    var graph := BuildGraph(settled);
    SupportGraphSpec(settled);
    SupportGraphLayered(settled);
    total := SumOfFalls(graph, seq(|settled|, i requires 0 <= i < |settled| => ZMin(settled[i])));
    PartsAgree(settled);
  }
}
