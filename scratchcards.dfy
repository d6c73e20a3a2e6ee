/** Scratchcards (aoc/2023/04.py): each card's matches score points, and wins
    copies of the cards that follow it. */
module Scratchcards {
  import opened Opt
  import opened Sums

  /** One card: its winning numbers and the numbers on it, as the tokens of
      the line (two tokens match only when they are the same text). */
  datatype Card = Card(winning: set<string>, numbers: set<string>)

  /** `len(winning & numbers)`: a number counts once however often it is written. */
  function Matches(card: Card): (r: nat)
    ensures r <= |card.winning| && r <= |card.numbers|
  {
    var common := card.winning * card.numbers;
    assert common <= card.winning && common <= card.numbers;
    SubsetSize(common, card.winning);
    SubsetSize(common, card.numbers);
    |common|
  }

  /** A card has no match exactly when none of its numbers is a winning one. */
  lemma NoMatches(card: Card)
    ensures Matches(card) == 0 <==> forall x :: x in card.numbers ==> x !in card.winning
  {
    NoneInCommon(card.winning, card.numbers);
  }

  lemma NoneInCommon<T>(a: set<T>, b: set<T>)
    ensures |a * b| == 0 <==> forall x :: x in b ==> x !in a
  {
    if exists x :: x in b && x in a {
      var x :| x in b && x in a;
      assert x in a * b;
    } else {
      assert a * b == {};
    }
  }

  lemma SubsetSize<T>(a: set<T>, b: set<T>)
    requires a <= b
    ensures |a| <= |b|
  {
    assert b == a + (b - a);
  }

  function Pow2(n: nat): (r: nat)
    ensures r >= 1
  {
    if n == 0 then 1 else 2 * Pow2(n - 1)
  }

  /** The points of a card: nothing without a match, else one point doubled
      for every match after the first. */
  function Points(matches: nat): nat {
    if matches > 0 then Pow2(matches - 1) else 0
  }

  /** One match scores 1, and every further match doubles the score. */
  lemma PointsDouble(matches: nat)
    ensures Points(1) == 1
    ensures matches >= 1 ==> Points(matches + 1) == 2 * Points(matches)
    ensures Points(matches) == 0 <==> matches == 0
  {
  }

  /** The points of the first `k` cards, added up, given each card's matches. */
  function TotalPoints(ms: seq<nat>, k: nat): nat
    requires k <= |ms|
  {
    if k == 0 then 0 else TotalPoints(ms, k - 1) + Points(ms[k - 1])
  }

  function MatchCounts(cards: seq<Card>): (ms: seq<nat>)
    ensures |ms| == |cards|
  {
    seq(|cards|, i requires 0 <= i < |cards| => Matches(cards[i]))
  }

  /** Every card's copies stay inside the pile: card `i` wins copies of the
      `ms[i]` cards after it, and those must exist. */
  predicate Fits(ms: seq<nat>) {
    forall i :: 0 <= i < |ms| ==> i + ms[i] < |ms|
  }

  /** The number of copies of card `t`: the original, plus one for every copy
      of each earlier card whose run of won cards reaches `t`. */
  function Copies(ms: seq<nat>, t: nat): (r: nat)
    requires t < |ms|
    ensures r >= 1
    decreases t, 1
  {
    1 + Inflow(ms, t, t)
  }

  /** The copies of card `t` won by the cards before `k`. */
  function Inflow(ms: seq<nat>, t: nat, k: nat): nat
    requires t < |ms| && k <= |ms|
    decreases k, 0
  {
    if k == 0 then 0
    else Inflow(ms, t, k - 1) + (if k - 1 < t <= k - 1 + ms[k - 1] then Copies(ms, k - 1) else 0)
  }

  /** Cards at or after `t` win no copies of `t`. */
  lemma {:induction false} InflowSettled(ms: seq<nat>, t: nat, k: nat)
    requires t <= k <= |ms| && t < |ms|
    ensures Inflow(ms, t, k) == Inflow(ms, t, t)
  {
    if k > t {
      InflowSettled(ms, t, k - 1);
    }
  }

  /** The copies of card `t` depend on the matches of the cards before it only:
      the count is final once every earlier card has been processed. */
  lemma {:induction false} CopiesDependOnEarlier(ms: seq<nat>, ns: seq<nat>, t: nat)
    requires t < |ms| && t < |ns| && ms[..t] == ns[..t]
    ensures Copies(ms, t) == Copies(ns, t)
    decreases t, 1
  {
    InflowDependsOnEarlier(ms, ns, t, t);
  }

  lemma {:induction false} InflowDependsOnEarlier(ms: seq<nat>, ns: seq<nat>, t: nat, k: nat)
    requires t < |ms| && t < |ns| && k <= t && ms[..t] == ns[..t]
    ensures Inflow(ms, t, k) == Inflow(ns, t, k)
    decreases k, 0
  {
    if k > 0 {
      InflowDependsOnEarlier(ms, ns, t, k - 1);
      assert ms[k - 1] == ms[..t][k - 1] == ns[..t][k - 1] == ns[k - 1];
      assert ms[..k - 1] == ms[..t][..k - 1];
      assert ns[..k - 1] == ns[..t][..k - 1];
      CopiesDependOnEarlier(ms, ns, k - 1);
    }
  }

  /** The copies of the first `k` cards, added up. */
  function TotalCopies(ms: seq<nat>, k: nat): nat
    requires k <= |ms|
  {
    if k == 0 then 0 else TotalCopies(ms, k - 1) + Copies(ms, k - 1)
  }

  /** Every card is held at least once, so the second answer is at least the
      number of cards. */
  lemma {:induction false} AtLeastOneOfEach(ms: seq<nat>, k: nat)
    requires k <= |ms|
    ensures TotalCopies(ms, k) >= k
  {
    if k > 0 {
      AtLeastOneOfEach(ms, k - 1);
    }
  }

  /** The inner loop over `range(i + 1, i + n_matches + 1)`: every copy of card
      `i` wins one more copy of each of the next `matches` cards. Past the end
      of the pile the indexing fails (`ok` is false), after the entries that
      do exist have been raised. */
  method WinCopies(won: array<nat>, i: nat, matches: nat) returns (ok: bool)
    requires i < won.Length
    modifies won
    ensures ok <==> i + matches < won.Length
    ensures won[..] == Raised(old(won[..]), i, matches)
  {
    var j := i + 1;
    while j < i + matches + 1
      invariant i + 1 <= j <= i + matches + 1 && j <= won.Length
      invariant forall t :: 0 <= t < won.Length ==>
                  won[t] == old(won[t]) + (if i < t < j then old(won[i]) else 0)
    {
      if j >= won.Length {
        assert won[..] == Raised(old(won[..]), i, matches);
        return false;
      }
      won[j] := won[j] + won[i];
      j := j + 1;
    }
    ok := true;
    assert won[..] == Raised(old(won[..]), i, matches);
  }

  /** Every entry after `i`, up to `n` of them, raised by the entry at `i`. */
  function Raised(s: seq<nat>, i: nat, n: nat): (r: seq<nat>)
    requires i < |s|
    ensures |r| == |s|
  {
    seq(|s|, t requires 0 <= t < |s| => s[t] + (if i < t <= i + n then s[i] else 0))
  }

  /** The two answers of the puzzle. */
  datatype Answers = Answers(points: nat, cards: nat)

  /** `solve_input`: the points of all cards, and how many cards are held
      once every won copy has been counted. It fails when a card wins copies
      of cards past the end of the pile. */
  method SolveInput(cards: seq<Card>) returns (result: Option<Answers>)
    ensures result.Some? <==> Fits(MatchCounts(cards))
    ensures result.Some? ==> result.value.points == TotalPoints(MatchCounts(cards), |cards|)
    ensures result.Some? ==> result.value.cards == TotalCopies(MatchCounts(cards), |cards|)
    ensures result.Some? ==> result.value.cards >= |cards|
  {
    ghost var ms := MatchCounts(cards);
    var points := 0;
    var won := new nat[|cards|](_ => 1);
    for i := 0 to |cards|
      invariant points == TotalPoints(ms, i)
      invariant FitsBefore(ms, i)
      invariant Progress(ms, won[..], i)
    {
      var matches := Matches(cards[i]);
      assert ms[i] == matches;
      points := points + Points(matches);
      ghost var before := won[..];
      CopiesReady(ms, before, i);
      var ok := WinCopies(won, i, matches);
      if !ok {
        assert !(i + ms[i] < |ms|);
        return None;
      }
      ProgressStep(ms, before, won[..], i);
    }
    AllCopiesCounted(ms, won[..]);
    return Some(Answers(points, Sum(won[..])));
  }

  /** The cards before `i` all win copies inside the pile. */
  ghost predicate FitsBefore(ms: seq<nat>, i: nat) {
    forall k :: 0 <= k < i && k < |ms| ==> k + ms[k] < |ms|
  }

  /** Once every card has been processed, `sum(n_won_cards)` is the total of
      the copies, at least one per card. */
  lemma AllCopiesCounted(ms: seq<nat>, won: seq<nat>)
    requires Progress(ms, won, |ms|)
    ensures Sum(won) == TotalCopies(ms, |ms|) >= |ms|
  {
    assert forall t :: 0 <= t < |won| ==> won[t] == Copies(ms, t);
    SumIsTotalCopies(ms, won, |won|);
    assert won[..|won|] == won;
    AtLeastOneOfEach(ms, |ms|);
  }

  /** After the first `i` cards: each entry holds the copies won so far, which
      for the cards before `i` is all they will ever get. */
  ghost predicate Progress(ms: seq<nat>, won: seq<nat>, i: nat) {
    && |won| == |ms| && i <= |ms|
    && forall t :: 0 <= t < |won| ==> won[t] == 1 + Inflow(ms, t, if t < i then t else i)
  }

  /** When card `i` comes up its count is final. */
  lemma CopiesReady(ms: seq<nat>, won: seq<nat>, i: nat)
    requires Progress(ms, won, i) && i < |ms|
    ensures won[i] == Copies(ms, i)
  {
  }

  /** Raising the `ms[i]` entries after `i` by the copies of card `i` completes card `i`. */
  lemma ProgressStep(ms: seq<nat>, before: seq<nat>, after: seq<nat>, i: nat)
    requires Progress(ms, before, i) && i < |ms| && after == Raised(before, i, ms[i])
    ensures Progress(ms, after, i + 1)
  {
    forall t | 0 <= t < |after|
      ensures after[t] == 1 + Inflow(ms, t, if t < i + 1 then t else i + 1)
    {
      if t > i {
        assert before[i] == Copies(ms, i);
      }
    }
  }

  /** `sum(n_won_cards)` once every entry holds its card's copies. */
  lemma {:induction false} SumIsTotalCopies(ms: seq<nat>, won: seq<nat>, k: nat)
    requires k <= |won| == |ms|
    requires forall t :: 0 <= t < |won| ==> won[t] == Copies(ms, t)
    ensures Sum(won[..k]) == TotalCopies(ms, k)
  {
    if k > 0 {
      SumIsTotalCopies(ms, won, k - 1);
      assert won[..k] == won[..k - 1] + [won[k - 1]];
      SumSnoc(won[..k - 1], won[k - 1]);
    }
  }
}
