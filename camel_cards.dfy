/** Camel Cards (aoc/2023/07.py): card values, hand types, the joker rule of
    the second part, and the total winnings of a ranked list of hands. */
module CamelCards {
  import opened Opt
  import opened Sorting
  import opened Sums

  type CardMap = map<char, int>

  /** `card_map1`: the picture cards of the first part. */
  const CardMap1: CardMap := map['T' := 10, 'J' := 11, 'Q' := 12, 'K' := 13, 'A' := 14]

  /** `card_map2`: the joker `J` is the weakest card. */
  const CardMap2: CardMap := map['T' := 10, 'J' := 1, 'Q' := 11, 'K' := 12, 'A' := 13]

  /** `all_cards`: the digits 2 to 9, then the keys of `card_map1` in order. */
  const AllCards: seq<char> := "23456789TJQKA"

  predicate IsDigit(c: char) {
    '0' <= c <= '9'
  }

  /** The value of one card: through the map when the card is a key of it,
      else `int(card)`, which fails on anything but a digit. */
  function CardValue(c: char, cardMap: CardMap): (r: Option<int>)
    ensures r.Some? <==> c in cardMap || IsDigit(c)
  {
    if c in cardMap then Some(cardMap[c])
    else if IsDigit(c) then Some(c as int - '0' as int)
    else None
  }

  /** Under `card_map1` the cards of `all_cards` are worth 2 to 14, each
      strictly more than the one before. */
  lemma CardMap1Ranks()
    ensures forall i :: 0 <= i < |AllCards| ==> CardValue(AllCards[i], CardMap1) == Some(i + 2)
  {
    assert AllCards == ['2', '3', '4', '5', '6', '7', '8', '9', 'T', 'J', 'Q', 'K', 'A'];
  }

  /** Under `card_map2` the joker is worth 1 and every other card of
      `all_cards` is worth 2 to 13, in the order of `all_cards`. */
  lemma CardMap2Ranks()
    ensures CardValue('J', CardMap2) == Some(1)
    ensures forall i :: 0 <= i < |AllCards| && AllCards[i] != 'J' ==>
              CardValue(AllCards[i], CardMap2) == Some(if i < 9 then i + 2 else i + 1)
    ensures forall c :: c in AllCards && c != 'J' ==> CardValue(c, CardMap2).value > 1
  {
    assert AllCards == ['2', '3', '4', '5', '6', '7', '8', '9', 'T', 'J', 'Q', 'K', 'A'];
  }

  /** `hand_values`: the value of every card, or an error when one card has none. */
  function HandValues(hand: seq<char>, cardMap: CardMap): (r: Option<seq<int>>)
    ensures r.Some? <==> forall i :: 0 <= i < |hand| ==> CardValue(hand[i], cardMap).Some?
    ensures r.Some? ==> |r.value| == |hand|
    ensures r.Some? ==> forall i :: 0 <= i < |hand| ==> CardValue(hand[i], cardMap) == Some(r.value[i])
  {
    if hand == [] then Some([])
    else
      var head, rest := CardValue(hand[0], cardMap), HandValues(hand[1..], cardMap);
      if head.Some? && rest.Some? then Some([head.value] + rest.value) else None
  }

  /** The distinct values in order of first appearance: the keys of `Counter(values)`. */
  function Distinct(s: seq<int>): (r: seq<int>)
    ensures forall v :: v in r <==> v in s
    ensures forall i, j :: 0 <= i < j < |r| ==> r[i] != r[j]
  {
    if s == [] then []
    else
      var init := s[..|s| - 1];
      assert s == init + [s[|s| - 1]];
      if s[|s| - 1] in init then Distinct(init) else Distinct(init) + [s[|s| - 1]]
  }

  /** How often each value of `d` occurs in `m`. */
  function CountsOf(d: seq<int>, m: multiset<int>): seq<int> {
    seq(|d|, i requires 0 <= i < |d| => m[d[i]])
  }

  /** `Counter(values).values()`: the number of occurrences of each distinct value. */
  function Counts(s: seq<int>): seq<int> {
    CountsOf(Distinct(s), multiset(s))
  }

  /** `tuple(sorted(Counter(values).values()))`. */
  function Profile(s: seq<int>): seq<int> {
    SortBy(Counts(s), IntLe)
  }

  /** `counts_to_type_map`: the seven shapes of a five-card hand, from high
      card (0) to five of a kind (6); any other tuple is a missing key. */
  function CountsToType(p: seq<int>): (r: Option<int>)
    ensures r.Some? ==> 0 <= r.value <= 6
  {
    if p == [5] then Some(6)
    else if p == [1, 4] then Some(5)
    else if p == [2, 3] then Some(4)
    else if p == [1, 1, 3] then Some(3)
    else if p == [1, 2, 2] then Some(2)
    else if p == [1, 1, 1, 2] then Some(1)
    else if p == [1, 1, 1, 1, 1] then Some(0)
    else None
  }

  /** A partition of `n`: positive parts in ascending order adding up to `n`. */
  ghost predicate IsPartition(p: seq<int>, n: int) {
    SortedBy(p, IntLe) && (forall i :: 0 <= i < |p| ==> p[i] >= 1) && Sum(p) == n
  }

  /** The keys of `counts_to_type_map` are exactly the partitions of five. */
  lemma PartitionsOfFive(p: seq<int>)
    ensures CountsToType(p).Some? <==> IsPartition(p, 5)
  {
    if IsPartition(p, 5) {
      PartitionOfFiveListed(p);
    }
    if CountsToType(p).Some? {
      ListedArePartitions(p);
    }
  }

  /** Each of the seven listed shapes is a partition of five. */
  lemma ListedArePartitions(p: seq<int>)
    requires CountsToType(p).Some?
    ensures IsPartition(p, 5)
  {
    SumOfShort(p);
  }

  lemma PartitionOfFiveListed(p: seq<int>)
    requires IsPartition(p, 5)
    ensures p in [[5], [1, 4], [2, 3], [1, 1, 3], [1, 2, 2], [1, 1, 1, 2], [1, 1, 1, 1, 1]]
  {
    PartitionParts(p, 5);
    assert p != [];
    SumOfShort(p);
    if |p| == 1 {
      assert p == [p[0]];
    } else if |p| == 2 {
      assert p[0] <= p[1];
      assert p == [p[0], p[1]];
    } else if |p| == 3 {
      assert p[0] <= p[1] <= p[2];
      assert p == [p[0], p[1], p[2]];
    } else if |p| == 4 {
      assert p[0] <= p[1] <= p[2] <= p[3];
      assert p == [p[0], p[1], p[2], p[3]];
    } else {
      assert p == [p[0], p[1], p[2], p[3], p[4]];
    }
  }

  /** Sums of up to five terms, written out. */
  lemma SumOfShort(p: seq<int>)
    requires 1 <= |p| <= 5
    ensures |p| == 1 ==> Sum(p) == p[0]
    ensures |p| == 2 ==> Sum(p) == p[0] + p[1]
    ensures |p| == 3 ==> Sum(p) == p[0] + p[1] + p[2]
    ensures |p| == 4 ==> Sum(p) == p[0] + p[1] + p[2] + p[3]
    ensures |p| == 5 ==> Sum(p) == p[0] + p[1] + p[2] + p[3] + p[4]
  {
    var q := p[1..];
    assert Sum(p) == p[0] + Sum(q);
    if |q| > 0 {
      var r := q[1..];
      assert Sum(q) == q[0] + Sum(r);
      if |r| > 0 {
        var u := r[1..];
        assert Sum(r) == r[0] + Sum(u);
        if |u| > 0 {
          var w := u[1..];
          assert Sum(u) == u[0] + Sum(w);
          if |w| > 0 {
            assert Sum(w) == w[0] + Sum(w[1..]);
          }
        }
      }
    }
  }

  /** The sum of positive parts is at least their number. */
  lemma {:induction false} PartitionParts(p: seq<int>, n: int)
    requires (forall i :: 0 <= i < |p| ==> p[i] >= 1) && Sum(p) == n
    ensures n >= |p|
  {
    if p != [] {
      PartitionParts(p[1..], Sum(p[1..]));
    }
  }

  /** `hand_type`: the type named by the sorted occurrence counts. */
  function HandType(values: seq<int>): (r: Option<int>)
    ensures r.Some? <==> |values| == 5
    ensures r.Some? ==> 0 <= r.value <= 6
  {
    ProfileIsPartition(values);
    PartitionsOfFive(Profile(values));
    CountsToType(Profile(values))
  }

  /** The first element of `a` sits somewhere in a reordering `b` of it, and
      what is left on both sides is again one reordering of the other. */
  lemma PickMatch<T>(a: seq<T>, b: seq<T>) returns (k: nat)
    requires a != [] && multiset(a) == multiset(b)
    ensures k < |b| && b[k] == a[0]
    ensures multiset(a[1..]) == multiset(b[..k] + b[k + 1..])
  {
    assert a[0] in multiset(b);
    k :| 0 <= k < |b| && b[k] == a[0];
    assert b == b[..k] + [b[k]] + b[k + 1..];
    assert multiset(b[..k] + b[k + 1..]) == multiset(b) - multiset{b[k]};
    TailMultiset(a);
  }

  /** Taking one element out of a sequence takes it out of the sum. */
  lemma SumSplit(b: seq<int>, k: nat)
    requires k < |b|
    ensures Sum(b) == b[k] + Sum(b[..k] + b[k + 1..])
  {
    var pre, x, post := b[..k], b[k], b[k + 1..];
    assert b == (pre + [x]) + post;
    SumAppend(pre + [x], post);
    SumAppend(pre, [x]);
    SumAppend(pre, post);
    assert Sum([x]) == x + Sum([]) by {
      assert [x][1..] == [];
    }
  }

  /** Reordering does not change a sum. */
  lemma {:induction false} SumPermutation(a: seq<int>, b: seq<int>)
    requires multiset(a) == multiset(b)
    ensures Sum(a) == Sum(b)
  {
    if a != [] {
      var k := PickMatch(a, b);
      SumPermutation(a[1..], b[..k] + b[k + 1..]);
      SumSplit(b, k);
    } else {
      assert |b| == |multiset(b)| == 0;
    }
  }

  lemma CountsOfAppend(d: seq<int>, e: seq<int>, m: multiset<int>)
    ensures CountsOf(d + e, m) == CountsOf(d, m) + CountsOf(e, m)
  {
  }

  /** Adding one occurrence of `y` adds one to the count total exactly when
      `y` is among the counted values, which appear once each. */
  lemma {:induction false} SumCountsAdd(d: seq<int>, m: multiset<int>, y: int)
    requires forall i, j :: 0 <= i < j < |d| ==> d[i] != d[j]
    ensures Sum(CountsOf(d, m + multiset{y})) == Sum(CountsOf(d, m)) + (if y in d then 1 else 0)
  {
    if d != [] {
      assert CountsOf(d, m + multiset{y})[1..] == CountsOf(d[1..], m + multiset{y});
      assert CountsOf(d, m)[1..] == CountsOf(d[1..], m);
      SumCountsAdd(d[1..], m, y);
      assert y in d <==> y == d[0] || y in d[1..];
      if y in d[1..] {
        var k :| 0 <= k < |d[1..]| && d[1..][k] == y;
        assert d[k + 1] == y;
      }
    }
  }

  /** The occurrence counts of a sequence add up to its length. */
  lemma {:induction false} CountsSum(s: seq<int>)
    ensures Sum(Counts(s)) == |s|
  {
    if s != [] {
      var init, y := s[..|s| - 1], s[|s| - 1];
      assert s == init + [y];
      CountsSum(init);
      assert multiset(s) == multiset(init) + multiset{y};
      SumCountsAdd(Distinct(init), multiset(init), y);
      if y !in init {
        CountsOfAppend(Distinct(init), [y], multiset(s));
        SumAppend(CountsOf(Distinct(init), multiset(s)), CountsOf([y], multiset(s)));
        assert CountsOf([y], multiset(s)) == [1];
      }
    }
  }

  /** The sorted counts form a partition of the number of cards. */
  lemma ProfileIsPartition(s: seq<int>)
    ensures IsPartition(Profile(s), |s|)
  {
    var c := Counts(s);
    var d := Distinct(s);
    SortBySorted(c, IntLe);
    var p := Profile(s);
    forall i | 0 <= i < |p| ensures p[i] >= 1 {
      assert p[i] in multiset(c);
      var k :| 0 <= k < |c| && c[k] == p[i];
      assert d[k] in s;
    }
    CountsSum(s);
    SumPermutation(p, c);
  }

  /** A sequence without repetitions holds each of its values once. */
  lemma {:induction false} NoRepeatsMultiset(d: seq<int>)
    requires forall i, j :: 0 <= i < j < |d| ==> d[i] != d[j]
    ensures forall v :: multiset(d)[v] == if v in d then 1 else 0
  {
    if d != [] {
      NoRepeatsMultiset(d[1..]);
      assert d == [d[0]] + d[1..];
      assert d[0] !in d[1..];
    }
  }

  /** Taking one value out of the counted values takes its count out. */
  lemma CountsSplit(e: seq<int>, k: nat, m: multiset<int>)
    requires k < |e|
    ensures multiset(CountsOf(e, m)) == multiset{m[e[k]]} + multiset(CountsOf(e[..k] + e[k + 1..], m))
  {
    assert e == (e[..k] + [e[k]]) + e[k + 1..];
    CountsOfAppend(e[..k] + [e[k]], e[k + 1..], m);
    CountsOfAppend(e[..k], [e[k]], m);
    CountsOfAppend(e[..k], e[k + 1..], m);
  }

  /** Counting the same values in another order gives the same counts, reordered. */
  lemma {:induction false} CountsOfPermutation(d: seq<int>, e: seq<int>, m: multiset<int>)
    requires multiset(d) == multiset(e)
    ensures multiset(CountsOf(d, m)) == multiset(CountsOf(e, m))
  {
    if d != [] {
      var k := PickMatch(d, e);
      CountsOfPermutation(d[1..], e[..k] + e[k + 1..], m);
      CountsSplit(e, k, m);
      CountsOfAppend([d[0]], d[1..], m);
      assert d == [d[0]] + d[1..];
    } else {
      assert |e| == |multiset(e)| == 0;
    }
  }

  /** `hand_type` sees only the multiset of values: reordering a hand keeps its type. */
  lemma HandTypePermutation(a: seq<int>, b: seq<int>)
    requires multiset(a) == multiset(b)
    ensures HandType(a) == HandType(b)
  {
    var da, db := Distinct(a), Distinct(b);
    NoRepeatsMultiset(da);
    NoRepeatsMultiset(db);
    forall v ensures v in a <==> v in b {
      assert v in a <==> v in multiset(a);
      assert v in b <==> v in multiset(b);
    }
    assert multiset(da) == multiset(db);
    CountsOfPermutation(da, db, multiset(a));
    SortBySorted(Counts(a), IntLe);
    SortBySorted(Counts(b), IntLe);
    SortedIntsUnique(Profile(a), Profile(b));
  }

  /** The sort key of a hand: its type, then its card values. */
  datatype Key = Key(kind: int, values: seq<int>)

  /** Python's order on tuples of integers: lexicographic, a proper prefix first. */
  predicate LexLe(a: seq<int>, b: seq<int>) {
    a == [] || (b != [] && (a[0] < b[0] || (a[0] == b[0] && LexLe(a[1..], b[1..]))))
  }

  /** Python's order on `(type, values)` pairs. */
  predicate KeyLe(a: Key, b: Key) {
    a.kind < b.kind || (a.kind == b.kind && LexLe(a.values, b.values))
  }

  lemma {:induction false} LexLeTotal(a: seq<int>, b: seq<int>)
    ensures LexLe(a, b) || LexLe(b, a)
  {
    if a != [] && b != [] && a[0] == b[0] {
      LexLeTotal(a[1..], b[1..]);
    }
  }

  lemma {:induction false} LexLeTransitive(a: seq<int>, b: seq<int>, c: seq<int>)
    requires LexLe(a, b) && LexLe(b, c)
    ensures LexLe(a, c)
  {
    if a != [] && b != [] && c != [] && a[0] == b[0] == c[0] {
      LexLeTransitive(a[1..], b[1..], c[1..]);
    }
  }

  /** Two equally long value tuples that are each at most the other are equal. */
  lemma {:induction false} LexLeAntisymmetric(a: seq<int>, b: seq<int>)
    requires |a| == |b| && LexLe(a, b) && LexLe(b, a)
    ensures a == b
  {
    if a != [] {
      LexLeAntisymmetric(a[1..], b[1..]);
      assert a == [a[0]] + a[1..] && b == [b[0]] + b[1..];
    }
  }

  /** Comparing keys is a total preorder, so sorting by key is well defined. */
  lemma KeyLeTotalPreorder()
    ensures TotalPreorder(KeyLe)
  {
    forall a: Key, b: Key ensures KeyLe(a, b) || KeyLe(b, a) {
      LexLeTotal(a.values, b.values);
    }
    forall a: Key, b: Key, c: Key | KeyLe(a, b) && KeyLe(b, c) ensures KeyLe(a, c) {
      if a.kind == b.kind == c.kind {
        LexLeTransitive(a.values, b.values, c.values);
      }
    }
  }

  /** Five cards, each with a value under `cardMap`. */
  predicate ValidHand(hand: seq<char>, cardMap: CardMap) {
    |hand| == 5 && forall i :: 0 <= i < |hand| ==> CardValue(hand[i], cardMap).Some?
  }

  /** `hand_key1`: the type and the values of a hand under `card_map1`; a
      key exists exactly for five cards that each have a value. */
  function HandKey1(hand: seq<char>): (r: Option<Key>)
    ensures r.Some? <==> ValidHand(hand, CardMap1)
    ensures r.Some? ==> 0 <= r.value.kind <= 6
  {
    match HandValues(hand, CardMap1)
    case None => None
    case Some(values) =>
      match HandType(values)
      case None => None
      case Some(kind) => Some(Key(kind, values))
  }

  /** Under `card_map1` different hands get different keys, so ties in the
      first part are only between copies of the same hand. */
  lemma HandKey1Injective(h1: seq<char>, h2: seq<char>)
    requires HandKey1(h1).Some? && HandKey1(h2).Some?
    requires KeyLe(HandKey1(h1).value, HandKey1(h2).value) && KeyLe(HandKey1(h2).value, HandKey1(h1).value)
    requires forall i :: 0 <= i < |h1| ==> h1[i] in AllCards
    requires forall i :: 0 <= i < |h2| ==> h2[i] in AllCards
    ensures h1 == h2
  {
    var v1, v2 := HandValues(h1, CardMap1).value, HandValues(h2, CardMap1).value;
    assert HandKey1(h1).value.values == v1 && HandKey1(h2).value.values == v2;
    LexLeAntisymmetric(v1, v2);
    assert |h1| == 5 == |h2|;
    forall i | 0 <= i < 5 ensures h1[i] == h2[i] {
      assert CardValue(h1[i], CardMap1) == Some(v1[i]) == CardValue(h2[i], CardMap1);
      CardMap1Injective(h1[i], h2[i]);
    }
  }

  /** Different cards of `all_cards` have different values under `card_map1`. */
  lemma CardMap1Injective(c1: char, c2: char)
    requires c1 in AllCards && c2 in AllCards
    requires CardValue(c1, CardMap1) == CardValue(c2, CardMap1)
    ensures c1 == c2
  {
    CardMap1Ranks();
    var a :| 0 <= a < |AllCards| && AllCards[a] == c1;
    var b :| 0 <= b < |AllCards| && AllCards[b] == c2;
    assert CardValue(AllCards[a], CardMap1) == Some(a + 2);
    assert CardValue(AllCards[b], CardMap1) == Some(b + 2);
  }

  /** The cards that `card` may stand for: every card for a joker, else itself. */
  function Choices(card: char): seq<char> {
    if card == 'J' then AllCards else [card]
  }

  /** `new_hand` is one of the hands `product` draws from `hand`: every card
      kept, except that a joker may become any card. */
  predicate IsSubstitution(newHand: seq<char>, hand: seq<char>) {
    |newHand| == |hand| && forall i :: 0 <= i < |hand| ==> newHand[i] in Choices(hand[i])
  }

  function Prefixed(card: char, rests: seq<seq<char>>): seq<seq<char>> {
    seq(|rests|, i requires 0 <= i < |rests| => [card] + rests[i])
  }

  /** Every choice for the first card, in front of every completion. */
  function Combine(cards: seq<char>, rests: seq<seq<char>>): (r: seq<seq<char>>)
    ensures forall h :: h in r <==> exists c, t :: c in cards && t in rests && h == [c] + t
  {
    if cards == [] then []
    else
      var r := Prefixed(cards[0], rests) + Combine(cards[1..], rests);
      assert forall h :: h in Prefixed(cards[0], rests) <==> exists t :: t in rests && h == [cards[0]] + t by {
        forall h | h in Prefixed(cards[0], rests) ensures exists t :: t in rests && h == [cards[0]] + t {
          var i :| 0 <= i < |rests| && Prefixed(cards[0], rests)[i] == h;
          assert rests[i] in rests;
        }
        forall h | exists t :: t in rests && h == [cards[0]] + t ensures h in Prefixed(cards[0], rests) {
          var t :| t in rests && h == [cards[0]] + t;
          var i :| 0 <= i < |rests| && rests[i] == t;
          assert Prefixed(cards[0], rests)[i] == h;
        }
      }
      assert forall c :: c in cards <==> c == cards[0] || c in cards[1..];
      r
  }

  /** `product(*[all_cards if card == 'J' else [card] for card in hand])`. */
  function Substitutions(hand: seq<char>): seq<seq<char>> {
    if hand == [] then [[]] else Combine(Choices(hand[0]), Substitutions(hand[1..]))
  }

  /** The product lists exactly the hands the jokers can make. */
  lemma {:induction false} SubstitutionsSpec(hand: seq<char>)
    ensures forall h :: h in Substitutions(hand) <==> IsSubstitution(h, hand)
  {
    if hand != [] {
      SubstitutionsSpec(hand[1..]);
      forall h ensures h in Substitutions(hand) <==> IsSubstitution(h, hand) {
        if IsSubstitution(h, hand) {
          assert IsSubstitution(h[1..], hand[1..]) by {
            forall i | 0 <= i < |hand[1..]| ensures h[1..][i] in Choices(hand[1..][i]) {
              assert h[1..][i] == h[i + 1] && hand[1..][i] == hand[i + 1];
            }
          }
          assert h == [h[0]] + h[1..];
        }
        if h in Substitutions(hand) {
          var c, t :| c in Choices(hand[0]) && t in Substitutions(hand[1..]) && h == [c] + t;
          forall i | 0 <= i < |hand| ensures h[i] in Choices(hand[i]) {
            if i > 0 {
              assert h[i] == t[i - 1] && hand[i] == hand[1..][i - 1];
            }
          }
        }
      }
    }
  }

  /** The type of one hand the jokers make, read with `card_map2`. */
  function JokerType(newHand: seq<char>): Option<int> {
    match HandValues(newHand, CardMap2)
    case None => None
    case Some(values) => HandType(values)
  }

  /** `max` over a sequence of results: an error in any term, or an empty
      sequence, makes the whole an error. */
  function MaxOpt(xs: seq<Option<int>>): (r: Option<int>)
    ensures r.Some? <==> xs != [] && forall i :: 0 <= i < |xs| ==> xs[i].Some?
    ensures r.Some? ==> forall i :: 0 <= i < |xs| ==> xs[i].value <= r.value
    ensures r.Some? ==> exists i :: 0 <= i < |xs| && xs[i] == r
  {
    if xs == [] then None
    else if |xs| == 1 then xs[0]
    else
      var rest := MaxOpt(xs[1..]);
      assert forall i :: 1 <= i < |xs| ==> xs[i] == xs[1..][i - 1];
      if xs[0].None? || rest.None? then None
      else if xs[0].value >= rest.value then xs[0]
      else rest
  }

  /** The type of every hand the jokers make. */
  function JokerTypes(hands: seq<seq<char>>): seq<Option<int>> {
    seq(|hands|, i requires 0 <= i < |hands| => JokerType(hands[i]))
  }

  /** `hand_key2`: the best type the jokers can reach, then the values of the
      hand as dealt, with the joker worth 1. */
  function HandKey2(hand: seq<char>): Option<Key> {
    match (MaxOpt(JokerTypes(Substitutions(hand))), HandValues(hand, CardMap2))
    case (Some(kind), Some(values)) => Some(Key(kind, values))
    case _ => None
  }

  /** A substitution has a type exactly when the hand is valid. */
  lemma SubstitutionValid(newHand: seq<char>, hand: seq<char>)
    requires IsSubstitution(newHand, hand)
    ensures JokerType(newHand).Some? <==> ValidHand(hand, CardMap2)
  {
    CardMap2Ranks();
    forall i | 0 <= i < |hand| ensures CardValue(newHand[i], CardMap2).Some? <==> CardValue(hand[i], CardMap2).Some? {
      if hand[i] == 'J' {
        assert newHand[i] in AllCards;
      }
    }
  }

  /** A hand has a joker key exactly when it has five cards, each with a value. */
  lemma HandKey2Defined(hand: seq<char>)
    ensures HandKey2(hand).Some? <==> ValidHand(hand, CardMap2)
  {
    var subs := Substitutions(hand);
    var types := JokerTypes(subs);
    SubstitutionsSpec(hand);
    assert IsSubstitution(hand, hand);
    var k :| 0 <= k < |subs| && subs[k] == hand;
    forall i | 0 <= i < |subs| ensures types[i].Some? <==> ValidHand(hand, CardMap2) {
      SubstitutionValid(subs[i], hand);
    }
    if !ValidHand(hand, CardMap2) {
      assert types[k].None?;
    }
  }

  /** The joker rule: the type of the key is the best over all substitutions
      and is attained by one; the tiebreak values are those of the hand as
      dealt, with the joker worth 1. */
  lemma HandKey2Best(hand: seq<char>)
    requires HandKey2(hand).Some?
    ensures forall h :: IsSubstitution(h, hand) ==> JokerType(h).Some? && JokerType(h).value <= HandKey2(hand).value.kind
    ensures exists h :: IsSubstitution(h, hand) && JokerType(h) == Some(HandKey2(hand).value.kind)
    ensures HandKey2(hand).value.values == HandValues(hand, CardMap2).value
  {
    var subs := Substitutions(hand);
    var types := JokerTypes(subs);
    var kind := HandKey2(hand).value.kind;
    SubstitutionsSpec(hand);
    forall h | IsSubstitution(h, hand) ensures JokerType(h).Some? && JokerType(h).value <= kind {
      var i :| 0 <= i < |subs| && subs[i] == h;
      assert types[i] == JokerType(h);
    }
    var i :| 0 <= i < |types| && types[i] == Some(kind);
    assert IsSubstitution(subs[i], hand);
  }

  /** Keeping every joker as it is is one substitution, so the joker rule
      never lowers a hand's type. */
  lemma JokerNeverLowers(hand: seq<char>)
    requires HandKey2(hand).Some?
    ensures JokerType(hand).Some? && JokerType(hand).value <= HandKey2(hand).value.kind
  {
    HandKey2Best(hand);
    assert IsSubstitution(hand, hand);
  }

  /** Without a joker the only substitution is the hand itself. */
  lemma NoJokerSameType(hand: seq<char>)
    requires 'J' !in hand && HandKey2(hand).Some?
    ensures JokerType(hand) == Some(HandKey2(hand).value.kind)
  {
    HandKey2Best(hand);
    var h :| IsSubstitution(h, hand) && JokerType(h) == Some(HandKey2(hand).value.kind);
    assert h == hand;
  }

  /** A line of the puzzle: a hand and its bid. */
  datatype Hand = Hand(cards: seq<char>, bid: int)

  predicate KeyedLe(a: (Key, int), b: (Key, int)) {
    KeyLe(a.0, b.0)
  }

  /** Every hand decorated with its key; `sorted` computes all keys before it
      compares, so one hand without a key fails the whole sort. */
  function KeyAll(hands: seq<Hand>, keyOf: seq<char> -> Option<Key>): (r: Option<seq<(Key, int)>>)
    ensures r.Some? <==> forall i :: 0 <= i < |hands| ==> keyOf(hands[i].cards).Some?
    ensures r.Some? ==> |r.value| == |hands|
    ensures r.Some? ==> forall i :: 0 <= i < |hands| ==> r.value[i] == (keyOf(hands[i].cards).value, hands[i].bid)
  {
    if hands == [] then Some([])
    else
      var head, rest := keyOf(hands[0].cards), KeyAll(hands[1..], keyOf);
      assert forall i :: 1 <= i < |hands| ==> hands[i] == hands[1..][i - 1];
      if head.Some? && rest.Some? then Some([(head.value, hands[0].bid)] + rest.value) else None
  }

  /** `sum((index + 1) * bid ...)`: the hand at position `i` has rank `i + 1`. */
  function Winnings(ranked: seq<(Key, int)>): int {
    if ranked == [] then 0
    else Winnings(ranked[..|ranked| - 1]) + |ranked| * ranked[|ranked| - 1].1
  }

  function BidSum(s: seq<(Key, int)>): int {
    if s == [] then 0 else s[0].1 + BidSum(s[1..])
  }

  /** A hand is paid its bid once for itself and once more for every weaker
      hand: the sum, over every rank, of the bids at or above that rank. */
  function SuffixBids(s: seq<(Key, int)>): int {
    if s == [] then 0 else BidSum(s) + SuffixBids(s[1..])
  }

  lemma {:induction false} BidSumSnoc(s: seq<(Key, int)>, x: (Key, int))
    ensures BidSum(s + [x]) == BidSum(s) + x.1
  {
    if s == [] {
      assert s + [x] == [x];
    } else {
      assert (s + [x])[1..] == s[1..] + [x];
      BidSumSnoc(s[1..], x);
    }
  }

  lemma {:induction false} SuffixBidsSnoc(s: seq<(Key, int)>, x: (Key, int))
    ensures SuffixBids(s + [x]) == SuffixBids(s) + (|s| + 1) * x.1
  {
    if s == [] {
      assert s + [x] == [x];
      assert [x][1..] == [];
    } else {
      assert (s + [x])[1..] == s[1..] + [x];
      BidSumSnoc(s, x);
      SuffixBidsSnoc(s[1..], x);
    }
  }

  /** Rank times bid, summed, is the sum of the bids at or above each rank. */
  lemma {:induction false} WinningsBySuffixes(s: seq<(Key, int)>)
    ensures Winnings(s) == SuffixBids(s)
  {
    if s != [] {
      var init, x := s[..|s| - 1], s[|s| - 1];
      assert s == init + [x];
      WinningsBySuffixes(init);
      SuffixBidsSnoc(init, x);
    }
  }

  /** `ranked` is what a stable sort by key makes of `keyed`: the same hands,
      weaker keys first, and hands with equal keys in their input order. */
  ghost predicate RankedFrom(ranked: seq<(Key, int)>, keyed: seq<(Key, int)>) {
    && multiset(ranked) == multiset(keyed)
    && SortedBy(ranked, KeyedLe)
    && forall x :: Ties(ranked, x, KeyedLe) == Ties(keyed, x, KeyedLe)
  }

  /** The sort ranks every hand exactly once, puts weaker keys first and keeps
      hands with equal keys in input order. */
  lemma RankedInOrder(keyed: seq<(Key, int)>)
    ensures multiset(SortBy(keyed, KeyedLe)) == multiset(keyed)
    ensures forall i, j :: 0 <= i < j < |keyed| ==> KeyLe(SortBy(keyed, KeyedLe)[i].0, SortBy(keyed, KeyedLe)[j].0)
    ensures RankedFrom(SortBy(keyed, KeyedLe), keyed)
  {
    KeyLeTotalPreorder();
    assert TotalPreorder(KeyedLe);
    SortBySorted(keyed, KeyedLe);
    forall x ensures Ties(SortBy(keyed, KeyedLe), x, KeyedLe) == Ties(keyed, x, KeyedLe) {
      SortByStable(keyed, x, KeyedLe);
    }
  }

  /** There is one stable ranking, so the winnings do not depend on how it is found. */
  lemma RankingUnique(keyed: seq<(Key, int)>, a: seq<(Key, int)>, b: seq<(Key, int)>)
    requires RankedFrom(a, keyed) && RankedFrom(b, keyed)
    ensures a == b
  {
    KeyLeTotalPreorder();
    assert TotalPreorder(KeyedLe);
    StableSortUnique(a, b, KeyedLe);
  }

  /** Every stable ranking of `keyed` pays what the sorted one pays. */
  lemma WinningsOfRanking(keyed: seq<(Key, int)>)
    ensures forall ranked :: RankedFrom(ranked, keyed) ==> Winnings(ranked) == Winnings(SortBy(keyed, KeyedLe))
  {
    RankedInOrder(keyed);
    forall ranked | RankedFrom(ranked, keyed) ensures Winnings(ranked) == Winnings(SortBy(keyed, KeyedLe)) {
      RankingUnique(keyed, ranked, SortBy(keyed, KeyedLe));
    }
  }

  /** `part1` and `part2`: sort the hands by key, weakest first (a stable
      sort), and add up rank times bid. */
  function TotalWinnings(hands: seq<Hand>, keyOf: seq<char> -> Option<Key>): (r: Option<int>)
    ensures r.Some? <==> forall i :: 0 <= i < |hands| ==> keyOf(hands[i].cards).Some?
    ensures r.Some? ==> exists ranked :: RankedFrom(ranked, KeyAll(hands, keyOf).value) && r.value == Winnings(ranked)
    ensures r.Some? ==> forall ranked :: RankedFrom(ranked, KeyAll(hands, keyOf).value) ==> r.value == Winnings(ranked)
  {
    match KeyAll(hands, keyOf)
    case None => None
    case Some(keyed) =>
      RankedInOrder(keyed);
      WinningsOfRanking(keyed);
      Some(Winnings(SortBy(keyed, KeyedLe)))
  }

  /** `part1`: the total winnings under `card_map1`, paid by the one stable ranking. */
  function Part1(hands: seq<Hand>): (r: Option<int>)
    ensures r.Some? <==> forall i :: 0 <= i < |hands| ==> ValidHand(hands[i].cards, CardMap1)
    ensures r.Some? ==> exists ranked :: RankedFrom(ranked, KeyAll(hands, HandKey1).value) && r.value == Winnings(ranked)
    ensures r.Some? ==> forall ranked :: RankedFrom(ranked, KeyAll(hands, HandKey1).value) ==> r.value == Winnings(ranked)
  {
    TotalWinnings(hands, HandKey1)
  }

  /** `part2`: the total winnings with jokers, paid by the one stable ranking. */
  function Part2(hands: seq<Hand>): (r: Option<int>)
    ensures r.Some? <==> forall i :: 0 <= i < |hands| ==> ValidHand(hands[i].cards, CardMap2)
    ensures r.Some? ==> KeyAll(hands, HandKey2).Some? && exists ranked :: RankedFrom(ranked, KeyAll(hands, HandKey2).value) && r.value == Winnings(ranked)
    ensures r.Some? ==> KeyAll(hands, HandKey2).Some? && forall ranked :: RankedFrom(ranked, KeyAll(hands, HandKey2).value) ==> r.value == Winnings(ranked)
  {
    forall i | 0 <= i < |hands| ensures HandKey2(hands[i].cards).Some? <==> ValidHand(hands[i].cards, CardMap2) {
      HandKey2Defined(hands[i].cards);
    }
    TotalWinnings(hands, HandKey2)
  }
}
