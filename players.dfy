/** Players: their points and hand, the shared row choice (take the row
    with the fewest points) and the deterministic card-choice strategies. */
module Players {
  import opened Lists
  import opened Rows
  import opened Boards

  /** The card-choice strategies; every one of them chooses rows by
      fewest points. */
  datatype Strategy = AscendingPlay | DescendingPlay | SmallestGapPlay | ShortestRowPlay

  /** The points of every row, in row order. */
  function RowPointsOf(rows: seq<seq<int>>): (pts: seq<int>)
    ensures |pts| == |rows|
    ensures forall i :: 0 <= i < |rows| ==> pts[i] == SumPoints(rows[i])
  {
    seq(|rows|, i requires 0 <= i < |rows| => SumPoints(rows[i]))
  }

  /** `choose_row`: the index of the first row with the fewest points. */
  function ChooseRow(rows: seq<seq<int>>): (k: nat)
    requires rows != []
    ensures k < |rows|
    ensures forall j :: 0 <= j < |rows| ==> SumPoints(rows[k]) <= SumPoints(rows[j])
    ensures forall j :: 0 <= j < k ==> SumPoints(rows[j]) > SumPoints(rows[k])
  {
    var pts := RowPointsOf(rows);
    assert forall j :: 0 <= j < |rows| ==> pts[j] in pts;
    IndexOf(pts, Min(pts))
  }

  /** With every row still worth the same, the first row is taken. */
  lemma ChooseRowTieGoesFirst(rows: seq<seq<int>>)
    requires rows != []
    requires forall j :: 0 <= j < |rows| ==> SumPoints(rows[j]) == SumPoints(rows[0])
    ensures ChooseRow(rows) == 0
  {
  }

  // ---------------------------------------------------------------------
  // Smallest gap: play the card closest above the head of a row with room.

  /** The initial "smallest gap so far"; only gaps below it are ever chosen. */
  const GapSentinel := 1000

  /** The heads of the rows that are not full, in row order. */
  function OpenHeads(rows: seq<seq<int>>): (heads: seq<int>)
    requires AllNonEmpty(rows)
    ensures forall h :: h in heads <==>
      exists i :: 0 <= i < |rows| && |rows[i]| < CardLimit && Last(rows[i]) == h
  {
    if rows == [] then []
    else
      var rest := OpenHeads(rows[1..]);
      assert forall i :: 1 <= i < |rows| ==> rows[i] == rows[1..][i - 1];
      if |rows[0]| < CardLimit then [Last(rows[0])] + rest else rest
  }

  /** The gap the smallest-gap scan compares for a card: the least distance
      from the card down to an open head below it, capped at the sentinel,
      which also stands for "no open head below". */
  function GapScore(heads: seq<int>, card: int): int
  {
    if heads == [] then GapSentinel
    else
      var rest := GapScore(heads[1..], card);
      if heads[0] < card && card - heads[0] < rest then card - heads[0] else rest
  }

  /** The gap score is at most the sentinel, at most every gap to a head
      below the card, and (below the sentinel) one of those gaps. */
  lemma {:induction false} GapScoreIsLeastGap(heads: seq<int>, card: int)
    ensures GapScore(heads, card) <= GapSentinel
    ensures forall i :: 0 <= i < |heads| && heads[i] < card ==> GapScore(heads, card) <= card - heads[i]
    ensures GapScore(heads, card) < GapSentinel ==>
      exists i :: 0 <= i < |heads| && heads[i] < card && GapScore(heads, card) == card - heads[i]
  {
    if heads != [] {
      GapScoreIsLeastGap(heads[1..], card);
      assert forall i :: 1 <= i < |heads| ==> heads[i] == heads[1..][i - 1];
      if GapScore(heads, card) < GapSentinel && GapScore(heads, card) != card - heads[0] {
        var i :| 0 <= i < |heads[1..]| && heads[1..][i] < card && GapScore(heads[1..], card) == card - heads[1..][i];
        assert heads[i + 1] < card && GapScore(heads, card) == card - heads[i + 1];
      }
    }
  }

  /** The scan's way of computing the gap, through the greatest head below
      the card, gives the gap score. */
  lemma GapScoreByMaxHead(heads: seq<int>, card: int)
    ensures MaxHeadBelow(heads, card).None? ==> GapScore(heads, card) == GapSentinel
    ensures MaxHeadBelow(heads, card).Some? ==>
      var gap := card - MaxHeadBelow(heads, card).value;
      GapScore(heads, card) == if gap < GapSentinel then gap else GapSentinel
  {
    GapScoreIsLeastGap(heads, card);
    var m := MaxHeadBelow(heads, card);
    if m.Some? {
      var i :| 0 <= i < |heads| && heads[i] == m.value;
      assert GapScore(heads, card) <= card - heads[i];
    }
  }

  /** Position `k` holds the first card of the hand with the least gap score. */
  ghost predicate IsSmallestGapChoice(hand: seq<int>, heads: seq<int>, k: nat) {
    && k < |hand|
    && (forall j :: 0 <= j < |hand| ==> GapScore(heads, hand[k]) <= GapScore(heads, hand[j]))
    && (forall j :: 0 <= j < k ==> GapScore(heads, hand[k]) < GapScore(heads, hand[j]))
  }

  /** The scan of SmallestGapPlayer.choose_card, keeping the best card and
      the smallest gap seen so far. */
  method SmallestGapPick(hand: seq<int>, rows: seq<seq<int>>) returns (k: nat)
    requires hand != [] && AllNonEmpty(rows)
    ensures IsSmallestGapChoice(hand, OpenHeads(rows), k)
  {
    var heads := OpenHeads(rows);
    k := 0;
    var smallest := GapSentinel;
    for i := 0 to |hand|
      invariant k < |hand| && smallest <= GapSentinel
      invariant i == 0 ==> k == 0 && smallest == GapSentinel
      invariant i > 0 ==> k < i && smallest == GapScore(heads, hand[k])
      invariant forall j :: 0 <= j < i ==> smallest <= GapScore(heads, hand[j])
      invariant forall j :: 0 <= j < k ==> smallest < GapScore(heads, hand[j])
    {
      var card := hand[i];
      var head := MaxHeadBelow(heads, card);
      GapScoreByMaxHead(heads, card);
      if head.Some? {
        var gap := card - head.value;
        if gap < smallest {
          k, smallest := i, gap;
        }
      }
    }
  }

  /** What the smallest-gap choice means: if some card of the hand has an
      open head below it (at a gap under the sentinel), the chosen card is
      one, its gap is the least such gap, and every earlier card has a
      greater gap or no open head below; otherwise the first card is chosen. */
  lemma SmallestGapChoiceMeaning(hand: seq<int>, heads: seq<int>, k: nat)
    requires IsSmallestGapChoice(hand, heads, k)
    ensures (forall j :: 0 <= j < |hand| ==> GapScore(heads, hand[j]) == GapSentinel) ==> k == 0
    ensures GapScore(heads, hand[k]) < GapSentinel ==>
      && MaxHeadBelow(heads, hand[k]).Some?
      && GapScore(heads, hand[k]) == hand[k] - MaxHeadBelow(heads, hand[k]).value
      && (forall j :: 0 <= j < |hand| && MaxHeadBelow(heads, hand[j]).Some? ==>
            hand[k] - MaxHeadBelow(heads, hand[k]).value <= hand[j] - MaxHeadBelow(heads, hand[j]).value)
      && (forall j :: 0 <= j < k && MaxHeadBelow(heads, hand[j]).Some? ==>
            hand[k] - MaxHeadBelow(heads, hand[k]).value < hand[j] - MaxHeadBelow(heads, hand[j]).value)
    ensures (exists j :: 0 <= j < |hand| && GapScore(heads, hand[j]) < GapSentinel) ==>
      GapScore(heads, hand[k]) < GapSentinel
  {
    if k > 0 {
      assert GapScore(heads, hand[k]) < GapScore(heads, hand[0]);
    }
    forall j | 0 <= j < |hand|
      ensures GapScore(heads, hand[j]) == match MaxHeadBelow(heads, hand[j])
        case None => GapSentinel
        case Some(h) => if hand[j] - h < GapSentinel then hand[j] - h else GapSentinel
    {
      GapScoreByMaxHead(heads, hand[j]);
    }
  }

  /** The smallest-gap choice is determined by the hand and the heads. */
  lemma SmallestGapChoiceUnique(hand: seq<int>, heads: seq<int>, k1: nat, k2: nat)
    requires IsSmallestGapChoice(hand, heads, k1) && IsSmallestGapChoice(hand, heads, k2)
    ensures k1 == k2
  {
    assert GapScore(heads, hand[k1]) <= GapScore(heads, hand[k2]);
    assert GapScore(heads, hand[k2]) <= GapScore(heads, hand[k1]);
  }

  /** For cards of the deck the sentinel never excludes a card: any card
      with an open head below it is a candidate. */
  lemma GapSentinelInactive(heads: seq<int>, card: int)
    requires forall i :: 0 <= i < |heads| ==> 1 <= heads[i]
    requires card <= Cards.DeckSize
    ensures GapScore(heads, card) < GapSentinel <==> MaxHeadBelow(heads, card).Some?
  {
    GapScoreByMaxHead(heads, card);
  }

  // ---------------------------------------------------------------------
  // Shortest row: play the card whose target row is shortest, gap breaking ties.

  /** The initial "shortest length so far" and "best gap so far". */
  const LengthSentinel := 6
  const GapTieSentinel := 105

  /** Lexicographic order on (length, gap). */
  predicate KeyLess(a: (int, int), b: (int, int)) {
    a.0 < b.0 || (a.0 == b.0 && a.1 < b.1)
  }

  /** The (length, gap) of the row a card with a target row would go to. */
  function RowKey(rows: seq<seq<int>>, card: int): (int, int)
    requires AllNonEmpty(rows) && TargetRow(rows, card).Some?
  {
    var t := TargetRow(rows, card).value;
    (|rows[t]|, card - Last(rows[t]))
  }

  /** The first row holding the greatest head below the card, found in one
      pass over the rows; an independent statement of TargetRow. */
  function BestRow(rows: seq<seq<int>>, card: int): (r: Option<nat>)
    requires AllNonEmpty(rows)
    ensures r.Some? ==> r.value < |rows|
  {
    if rows == [] then None
    else
      var n := |rows| - 1;
      var b := BestRow(rows[..n], card);
      if Last(rows[n]) < card && (b.None? || Last(rows[b.value]) < Last(rows[n])) then Some(n) else b
  }

  lemma {:induction false} BestRowIsTargetRow(rows: seq<seq<int>>, card: int)
    requires AllNonEmpty(rows)
    ensures BestRow(rows, card) == TargetRow(rows, card)
  {
    BestRowIsFirstGreatest(rows, card);
  }

  lemma {:induction false} BestRowIsFirstGreatest(rows: seq<seq<int>>, card: int)
    requires AllNonEmpty(rows)
    ensures BestRow(rows, card).None? <==> forall i :: 0 <= i < |rows| ==> card <= Last(rows[i])
    ensures BestRow(rows, card).Some? ==>
      var t := BestRow(rows, card).value;
      && Last(rows[t]) < card
      && (forall i :: 0 <= i < |rows| && Last(rows[i]) < card ==> Last(rows[i]) <= Last(rows[t]))
      && (forall i :: 0 <= i < t ==> Last(rows[i]) != Last(rows[t]))
  {
    if rows != [] {
      var n := |rows| - 1;
      BestRowIsFirstGreatest(rows[..n], card);
      assert forall i :: 0 <= i < n ==> rows[..n][i] == rows[i];
    }
  }

  /** The key the shortest-row scan compares for a card: the (length, gap)
      of its target row when that is below the sentinels, else the
      sentinels, which also stand for "no target row". */
  function RowScore(rows: seq<seq<int>>, card: int): (score: (int, int))
    requires AllNonEmpty(rows)
    ensures !KeyLess((LengthSentinel, GapTieSentinel), score)
  {
    match BestRow(rows, card)
    case None => (LengthSentinel, GapTieSentinel)
    case Some(t) =>
      var key := (|rows[t]|, card - Last(rows[t]));
      if KeyLess(key, (LengthSentinel, GapTieSentinel)) then key else (LengthSentinel, GapTieSentinel)
  }

  /** Position `k` holds the first card of the hand with the least row score. */
  ghost predicate IsShortestRowChoice(hand: seq<int>, rows: seq<seq<int>>, k: nat)
    requires AllNonEmpty(rows)
  {
    && k < |hand|
    && (forall j :: 0 <= j < |hand| ==> !KeyLess(RowScore(rows, hand[j]), RowScore(rows, hand[k])))
    && (forall j :: 0 <= j < k ==> KeyLess(RowScore(rows, hand[k]), RowScore(rows, hand[j])))
  }

  /** The scan of ShortestRowPlayer.choose_card, keeping the best card, the
      shortest length and the best gap seen so far. */
  method ShortestRowPick(hand: seq<int>, rows: seq<seq<int>>) returns (k: nat)
    requires hand != [] && AllNonEmpty(rows)
    ensures IsShortestRowChoice(hand, rows, k)
  {
    k := 0;
    var shortest, bestGap := LengthSentinel, GapTieSentinel;
    for i := 0 to |hand|
      invariant k < |hand| && !KeyLess((LengthSentinel, GapTieSentinel), (shortest, bestGap))
      invariant i == 0 ==> k == 0 && (shortest, bestGap) == (LengthSentinel, GapTieSentinel)
      invariant i > 0 ==> k < i && (shortest, bestGap) == RowScore(rows, hand[k])
      invariant forall j :: 0 <= j < i ==> !KeyLess(RowScore(rows, hand[j]), (shortest, bestGap))
      invariant forall j :: 0 <= j < k ==> KeyLess((shortest, bestGap), RowScore(rows, hand[j]))
    {
      var card := hand[i];
      var target := TargetRow(rows, card);
      RowScoreByTarget(rows, card);
      if target.Some? {
        var t := target.value;
        var length := |rows[t]|;
        var gap := card - Last(rows[t]);
        assert (length, gap) == RowKey(rows, card);
        if length < shortest || (length == shortest && gap < bestGap) {
          k, shortest, bestGap := i, length, gap;
        }
      }
    }
  }

  /** The scan's way of computing the key, through TargetRow, gives the
      row score. */
  lemma RowScoreByTarget(rows: seq<seq<int>>, card: int)
    requires AllNonEmpty(rows)
    ensures RowScore(rows, card) ==
      if TargetRow(rows, card).Some? && KeyLess(RowKey(rows, card), (LengthSentinel, GapTieSentinel))
      then RowKey(rows, card) else (LengthSentinel, GapTieSentinel)
  {
    BestRowIsTargetRow(rows, card);
  }

  /** When no card of the hand has a target row (under the sentinels), the
      first card is chosen; when some card has one, so does the chosen one. */
  lemma ShortestRowFallback(hand: seq<int>, rows: seq<seq<int>>, k: nat)
    requires AllNonEmpty(rows)
    requires IsShortestRowChoice(hand, rows, k)
    ensures (forall j :: 0 <= j < |hand| ==> RowScore(rows, hand[j]) == (LengthSentinel, GapTieSentinel)) ==> k == 0
    ensures (exists j :: 0 <= j < |hand| && RowScore(rows, hand[j]) != (LengthSentinel, GapTieSentinel)) ==>
      RowScore(rows, hand[k]) != (LengthSentinel, GapTieSentinel)
  {
    if k > 0 {
      assert KeyLess(RowScore(rows, hand[k]), RowScore(rows, hand[0]));
    }
  }

  /** What the shortest-row choice means when some card has a target row:
      the chosen card has one, its (length, gap) is the least among the
      cards that have one, and every earlier such card has a greater key. */
  lemma ShortestRowChoiceMeaning(hand: seq<int>, rows: seq<seq<int>>, k: nat)
    requires AllNonEmpty(rows)
    requires IsShortestRowChoice(hand, rows, k)
    requires RowScore(rows, hand[k]) != (LengthSentinel, GapTieSentinel)
    ensures TargetRow(rows, hand[k]).Some? && RowScore(rows, hand[k]) == RowKey(rows, hand[k])
    ensures forall j :: 0 <= j < |hand| && TargetRow(rows, hand[j]).Some? ==>
      !KeyLess(RowKey(rows, hand[j]), RowKey(rows, hand[k]))
    ensures forall j :: 0 <= j < k && TargetRow(rows, hand[j]).Some? ==>
      KeyLess(RowKey(rows, hand[k]), RowKey(rows, hand[j]))
  {
    RowScoreByTarget(rows, hand[k]);
    forall j | 0 <= j < |hand| && TargetRow(rows, hand[j]).Some?
      ensures !KeyLess(RowKey(rows, hand[j]), RowKey(rows, hand[k]))
      ensures j < k ==> KeyLess(RowKey(rows, hand[k]), RowKey(rows, hand[j]))
    {
      RowScoreByTarget(rows, hand[j]);
    }
  }

  /** The shortest-row choice is determined by the hand and the rows. */
  lemma ShortestRowChoiceUnique(hand: seq<int>, rows: seq<seq<int>>, k1: nat, k2: nat)
    requires AllNonEmpty(rows)
    requires IsShortestRowChoice(hand, rows, k1) && IsShortestRowChoice(hand, rows, k2)
    ensures k1 == k2
  {
    assert !KeyLess(RowScore(rows, hand[k1]), RowScore(rows, hand[k2]));
    assert !KeyLess(RowScore(rows, hand[k2]), RowScore(rows, hand[k1]));
  }

  /** On rows within the card limit the sentinels never exclude a card: any
      card with a target row is a candidate. */
  lemma LengthSentinelInactive(rows: seq<seq<int>>, card: int)
    requires AllNonEmpty(rows)
    requires forall i :: 0 <= i < |rows| ==> |rows[i]| <= CardLimit
    ensures RowScore(rows, card) != (LengthSentinel, GapTieSentinel) <==> TargetRow(rows, card).Some?
  {
    BestRowIsTargetRow(rows, card);
  }

  // ---------------------------------------------------------------------

  /** What each strategy's `choose_card` does to the hand: Ascending plays
      the lowest card and leaves the rest sorted high to low, Descending
      plays the highest and leaves the rest sorted low to high (by
      SortingStrategyRest, exactly the sorted hand without its last card);
      the other two play the card their scan picks and remove its first
      occurrence. */
  ghost predicate FollowsStrategy(strategy: Strategy, before: seq<int>, rows: seq<seq<int>>, card: int, after: seq<int>)
    requires before != []
    requires strategy.SmallestGapPlay? || strategy.ShortestRowPlay? ==> AllNonEmpty(rows)
    ensures FollowsStrategy(strategy, before, rows, card, after) ==>
      card in before && |after| == |before| - 1 && multiset(after) == multiset(before) - multiset{card}
  {
    match strategy
    case AscendingPlay =>
      MultisetLessOne(before, after, card);
      card == Min(before) && Descending(after) && multiset(after) == multiset(before) - multiset{card}
    case DescendingPlay =>
      MultisetLessOne(before, after, card);
      card == Max(before) && Ascending(after) && multiset(after) == multiset(before) - multiset{card}
    case SmallestGapPlay =>
      && (exists k: nat :: IsSmallestGapChoice(before, OpenHeads(rows), k) && card == before[k])
      && card in before && after == RemoveFirst(before, card)
    case ShortestRowPlay =>
      && (exists k: nat :: IsShortestRowChoice(before, rows, k) && card == before[k])
      && card in before && after == RemoveFirst(before, card)
  }

  /** `hand.sort(reverse=True)` then `pop()`, and `hand.sort()` then
      `pop()`: `FollowsStrategy` holds for either sorting strategy exactly of the
      sorted hand less its last card. */
  lemma SortingStrategyRest(strategy: Strategy, before: seq<int>, rows: seq<seq<int>>, card: int, after: seq<int>)
    requires before != [] && (strategy.AscendingPlay? || strategy.DescendingPlay?)
    ensures FollowsStrategy(strategy, before, rows, card, after) <==>
      if strategy.AscendingPlay? then card == Min(before) && after == SortDescending(before)[..|before| - 1]
      else card == Max(before) && after == Sort(before)[..|before| - 1]
  {
    if strategy.AscendingPlay? {
      DescendingRest(before, card, after);
    } else {
      AscendingRest(before, card, after);
    }
  }

  /** A hand less its lowest card, sorted high to low, is the hand sorted
      high to low less its last card. */
  lemma DescendingRest(before: seq<int>, card: int, after: seq<int>)
    requires before != []
    ensures (card == Min(before) && Descending(after) && multiset(after) == multiset(before) - multiset{card})
      <==> (card == Min(before) && after == SortDescending(before)[..|before| - 1])
  {
    var n := |before|;
    var r := SortDescending(before);
    var rest := r[..n - 1];
    SortDescendingLessLast(before);
    if card == Min(before) && Descending(after) && multiset(after) == multiset(before) - multiset{card} {
      DescendingUnique(after, rest);
    }
  }

  /** A hand less its highest card, sorted low to high, is the sorted hand
      less its last card. */
  lemma AscendingRest(before: seq<int>, card: int, after: seq<int>)
    requires before != []
    ensures (card == Max(before) && Ascending(after) && multiset(after) == multiset(before) - multiset{card})
      <==> (card == Max(before) && after == Sort(before)[..|before| - 1])
  {
    var n := |before|;
    var r := Sort(before);
    var rest := r[..n - 1];
    SortLessLast(before);
    if card == Max(before) && Ascending(after) && multiset(after) == multiset(before) - multiset{card} {
      SortedUnique(after, rest);
    }
  }

  class Player {
    const id: string
    const strategy: Strategy
    var points: int
    var hand: seq<int>

    constructor (id: string, strategy: Strategy)
      ensures this.id == id && this.strategy == strategy
      ensures points == 0 && hand == []
    {
      this.id := id;
      this.strategy := strategy;
      points := 0;
      hand := [];
    }

    method ReceiveHand(newHand: seq<int>)
      modifies this`hand
      ensures hand == newHand
    {
      hand := newHand;
    }

    method AddPoints(pts: int)
      modifies this`points
      ensures points == old(points) + pts
    {
      points := points + pts;
    }

    method ClearPoints()
      modifies this`points
      ensures points == 0
    {
      points := 0;
    }

    /** `choose_card`: takes exactly one card out of the hand and plays it.
        Ascending plays the lowest card (after sorting the hand high to
        low), Descending the highest (after sorting low to high); the other
        two play the card their scan picks and remove its first occurrence. */
    method ChooseCard(rows: seq<seq<int>>) returns (card: int)
      requires hand != []
      requires strategy.SmallestGapPlay? || strategy.ShortestRowPlay? ==> AllNonEmpty(rows)
      modifies this`hand
      ensures card in old(hand) && |hand| == |old(hand)| - 1
      ensures multiset(hand) == multiset(old(hand)) - multiset{card}
      ensures FollowsStrategy(strategy, old(hand), rows, card, hand)
      ensures strategy.AscendingPlay? ==> card == Min(old(hand)) && hand == SortDescending(old(hand))[..|old(hand)| - 1]
      ensures strategy.DescendingPlay? ==> card == Max(old(hand)) && hand == Sort(old(hand))[..|old(hand)| - 1]
    {
      ghost var before := hand;
      match strategy
      case AscendingPlay =>
        LastOfSortDescendingIsMin(hand);
        SortDescendingIsDescendingPermutation(hand);
        hand := SortDescending(hand);
        card := Pop();
        SortingStrategyRest(strategy, before, rows, card, hand);
      case DescendingPlay =>
        LastOfSortIsMax(hand);
        hand := Sort(hand);
        card := Pop();
        SortingStrategyRest(strategy, before, rows, card, hand);
      case SmallestGapPlay =>
        var k := SmallestGapPick(hand, rows);
        card := hand[k];
        hand := RemoveFirst(hand, card);
      case ShortestRowPlay =>
        var k := ShortestRowPick(hand, rows);
        card := hand[k];
        hand := RemoveFirst(hand, card);
    }

    /** `hand.pop()`: removes and returns the last card. */
    method Pop() returns (card: int)
      requires hand != []
      modifies this`hand
      ensures card == Last(old(hand)) && hand == old(hand)[..|old(hand)| - 1]
      ensures multiset(hand) == multiset(old(hand)) - multiset{card}
    {
      card := hand[|hand| - 1];
      assert hand == hand[..|hand| - 1] + [card];
      hand := hand[..|hand| - 1];
    }
  }
}
