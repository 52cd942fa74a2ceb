/** One round of the game: dealing a shuffled deck, then ten turns in which
    every player picks a card, the cards are resolved from lowest to
    highest, and whoever takes a row collects its points. */
module Game {
  import opened Lists
  import opened Cards
  import opened Rows
  import opened Boards
  import opened Players

  const Turns := 10
  const MaxPlayers := 10

  // ---------------------------------------------------------------------
  // The deck and the deal
  // ---------------------------------------------------------------------

  /** The unshuffled deck: the cards 1 to DeckSize in order. */
  function FullDeck(): (d: seq<int>)
    ensures |d| == DeckSize
    ensures forall i :: 0 <= i < DeckSize ==> d[i] == i + 1
  {
    seq(DeckSize, i => i + 1)
  }

  /** A deck as the shuffle leaves it: some ordering of the full deck. */
  ghost predicate IsShuffledDeck(deck: seq<int>) {
    |deck| == DeckSize && multiset(deck) == multiset(FullDeck())
  }

  /** Every card in the hand is a card of the deck. */
  ghost predicate InDeck(hand: seq<int>) {
    forall i :: 0 <= i < |hand| ==> 1 <= hand[i] <= DeckSize
  }

  lemma {:induction false} StrictlyAscendingOnce(s: seq<int>, x: int)
    requires StrictlyAscending(s)
    ensures multiset(s)[x] <= 1
  {
    if s != [] {
      assert s == [s[0]] + s[1..];
      assert StrictlyAscending(s[1..]) by {
        forall i, j | 0 <= i < j < |s| - 1 ensures s[1..][i] < s[1..][j] {
          assert s[1..][i] == s[i + 1] && s[1..][j] == s[j + 1];
        }
      }
      StrictlyAscendingOnce(s[1..], x);
      if x == s[0] {
        assert x !in s[1..];
      }
    }
  }

  /** A shuffled deck has DeckSize distinct cards, each between 1 and
      DeckSize. */
  lemma ShuffledDeckFacts(deck: seq<int>)
    requires IsShuffledDeck(deck)
    ensures |deck| == DeckSize
    ensures InDeck(deck)
    ensures forall a, b :: 0 <= a < b < |deck| ==> deck[a] != deck[b]
  {
    var full := FullDeck();
    forall i | 0 <= i < |deck| ensures 1 <= deck[i] <= DeckSize {
      assert deck[i] in multiset(full);
      var k :| 0 <= k < |full| && full[k] == deck[i];
    }
    forall a, b | 0 <= a < b < |deck| ensures deck[a] != deck[b] {
      StrictlyAscendingOnce(full, deck[a]);
      assert deck == deck[..b] + deck[b..];
      assert deck[a] in deck[..b] && deck[b..][0] == deck[b];
      assert multiset(deck)[deck[b]] == multiset(deck[..b])[deck[b]] + multiset(deck[b..])[deck[b]];
    }
  }

  /** `deck[-10:]` after `i` earlier players have been dealt. */
  function DealtHand(deck: seq<int>, i: nat): (hand: seq<int>)
    requires Turns * (i + 1) <= |deck|
    ensures |hand| == Turns
  {
    deck[|deck| - Turns * (i + 1) .. |deck| - Turns * i]
  }

  /** The rows after the deal: each row starts with the card popped from
      what is left of the deck once `n` players have been dealt. */
  function StartRows(deck: seq<int>, n: nat): (rows: seq<seq<int>>)
    requires Turns * n + RowCount <= |deck|
    ensures |rows| == RowCount
    ensures forall j :: 0 <= j < RowCount ==> rows[j] == [deck[|deck| - Turns * n - 1 - j]]
  {
    seq(RowCount, j requires 0 <= j < RowCount => [deck[|deck| - Turns * n - 1 - j]])
  }

  /** The rows while they are being started: the first `j` hold their
      starting card, the others are still empty. */
  function PartialStart(deck: seq<int>, j: nat): (rows: seq<seq<int>>)
    requires RowCount <= |deck|
    ensures |rows| == RowCount
    ensures forall k :: 0 <= k < RowCount ==> rows[k] == if k < j then [deck[|deck| - 1 - k]] else []
  {
    var n := |deck|;
    [ if 0 < j then [deck[n - 1]] else [],
      if 1 < j then [deck[n - 2]] else [],
      if 2 < j then [deck[n - 3]] else [],
      if 3 < j then [deck[n - 4]] else [] ]
  }

  /** Before the first row is started every row is empty; once all are
      started they are the rows after the deal. */
  lemma PartialStartEnds(deck: seq<int>)
    requires RowCount <= |deck|
    ensures PartialStart(deck, 0) == [[], [], [], []]
    ensures PartialStart(deck, RowCount) == StartRows(deck, 0)
  {
  }

  /** Starting row `j` adds its card to an empty row. */
  lemma PartialStartStep(deck: seq<int>, j: nat)
    requires RowCount <= |deck| && j < RowCount
    ensures PartialStart(deck, j)[j] == []
    ensures PartialStart(deck, j)[j := AfterAdd([], deck[|deck| - 1 - j])] == PartialStart(deck, j + 1)
  {
    var c := deck[|deck| - 1 - j];
    assert AfterAdd([], c) == [c];
    var next := PartialStart(deck, j)[j := [c]];
    assert forall k :: 0 <= k < RowCount ==> next[k] == PartialStart(deck, j + 1)[k];
  }

  /** Starting the rows from the deck cut after `n` hands is starting them
      from the full deck past those hands. */
  lemma StartRowsAfterCut(deck: seq<int>, n: nat)
    requires Turns * n + RowCount <= |deck|
    ensures StartRows(deck[..|deck| - Turns * n], 0) == StartRows(deck, n)
  {
    var rest := deck[..|deck| - Turns * n];
    forall k | 0 <= k < RowCount ensures StartRows(rest, 0)[k] == StartRows(deck, n)[k] {
      assert rest[|rest| - 1 - k] == deck[|deck| - Turns * n - 1 - k];
    }
  }

  /** With at most MaxPlayers players, a shuffled deck gives every player
      Turns cards of the deck, and the four starting rows are single cards
      of the deck. */
  lemma DealFits(deck: seq<int>, n: nat)
    requires IsShuffledDeck(deck) && n <= MaxPlayers
    ensures Turns * n + RowCount <= |deck|
    ensures forall i :: 0 <= i < n ==> InDeck(DealtHand(deck, i))
    ensures forall j :: 0 <= j < RowCount ==> InDeck(StartRows(deck, n)[j])
    ensures RowsInPlay(StartRows(deck, n))
  {
    ShuffledDeckFacts(deck);
  }

  /** No card is dealt twice: two players' hands have no card in common. */
  lemma DealtHandsDisjoint(deck: seq<int>, n: nat, i: nat, j: nat)
    requires IsShuffledDeck(deck) && n <= MaxPlayers
    requires i < n && j < n && i != j
    ensures forall c :: c in DealtHand(deck, i) ==> c !in DealtHand(deck, j)
  {
    ShuffledDeckFacts(deck);
    var hi, hj := DealtHand(deck, i), DealtHand(deck, j);
    var li, lj := |deck| - Turns * (i + 1), |deck| - Turns * (j + 1);
    forall c | c in hi ensures c !in hj {
      var a :| 0 <= a < Turns && hi[a] == c;
      assert deck[li + a] == c;
      forall b | 0 <= b < Turns ensures hj[b] != c {
        assert hj[b] == deck[lj + b];
      }
    }
  }

  /** No starting card of a row is in a player's hand. */
  lemma StartersNotDealt(deck: seq<int>, n: nat, i: nat, j: nat)
    requires IsShuffledDeck(deck) && n <= MaxPlayers
    requires i < n && j < RowCount
    ensures StartRows(deck, n)[j][0] !in DealtHand(deck, i)
  {
    ShuffledDeckFacts(deck);
    var h := DealtHand(deck, i);
    var lo := |deck| - Turns * (i + 1);
    forall b | 0 <= b < Turns ensures h[b] != StartRows(deck, n)[j][0] {
      assert h[b] == deck[lo + b];
    }
  }

  /** The four starting cards, in row order. */
  function Starters(deck: seq<int>, n: nat): (cards: seq<int>)
    requires Turns * n + RowCount <= |deck|
    ensures |cards| == RowCount
    ensures forall j :: 0 <= j < RowCount ==> cards[j] == StartRows(deck, n)[j][0]
  {
    seq(RowCount, j requires 0 <= j < RowCount => StartRows(deck, n)[j][0])
  }

  /** The hands of `n` players, laid out as they lay in the deck: the
      last player's hand first. */
  function DealtCards(deck: seq<int>, n: nat): seq<int>
    requires Turns * n <= |deck|
  {
    if n == 0 then [] else DealtHand(deck, n - 1) + DealtCards(deck, n - 1)
  }

  /** The hands of `n` players are the last Turns * n cards of the deck. */
  lemma {:induction false} DealtCardsAreTop(deck: seq<int>, n: nat)
    requires Turns * n <= |deck|
    ensures DealtCards(deck, n) == deck[|deck| - Turns * n..]
  {
    if n > 0 {
      DealtCardsAreTop(deck, n - 1);
      assert deck[|deck| - Turns * n..] == DealtHand(deck, n - 1) + deck[|deck| - Turns * (n - 1)..];
    }
  }

  /** The deal loses no card: what is left of the deck, the four starting
      cards and the hands make up the full deck. */
  lemma DealConservesCards(deck: seq<int>, n: nat)
    requires IsShuffledDeck(deck) && n <= MaxPlayers
    ensures Turns * n + RowCount <= |deck|
    ensures multiset(deck[..|deck| - Turns * n - RowCount]) + multiset(Starters(deck, n)) + multiset(DealtCards(deck, n))
      == multiset(FullDeck())
  {
    var m := |deck| - Turns * n;
    StartersAreTop(deck, n);
    ReverseMultiset(deck[m - RowCount..m]);
    DealtCardsAreTop(deck, n);
    MultisetSplit(deck, m - RowCount, m);
  }

  /** The starting cards are the RowCount cards below the hands, popped
      from the top down. */
  lemma StartersAreTop(deck: seq<int>, n: nat)
    requires Turns * n + RowCount <= |deck|
    ensures Starters(deck, n) == Reverse(deck[|deck| - Turns * n - RowCount..|deck| - Turns * n])
  {
  }

  /** The deal repeats no card: no hand holds a card twice and the four
      starting cards are distinct. */
  lemma DealtCardsDistinct(deck: seq<int>, n: nat)
    requires IsShuffledDeck(deck) && n <= MaxPlayers
    ensures Turns * n + RowCount <= |deck|
    ensures forall i, a, b :: 0 <= i < n && 0 <= a < b < Turns ==> DealtHand(deck, i)[a] != DealtHand(deck, i)[b]
    ensures forall j, k :: 0 <= j < k < RowCount ==> Starters(deck, n)[j] != Starters(deck, n)[k]
  {
    ShuffledDeckFacts(deck);
    forall i, a, b | 0 <= i < n && 0 <= a < b < Turns ensures DealtHand(deck, i)[a] != DealtHand(deck, i)[b] {
      var lo := |deck| - Turns * (i + 1);
      assert DealtHand(deck, i)[a] == deck[lo + a] && DealtHand(deck, i)[b] == deck[lo + b];
    }
  }

  // ---------------------------------------------------------------------
  // Resolving one played card
  // ---------------------------------------------------------------------

  /** The rows and the points a player receives after one card is resolved. */
  datatype Outcome = Outcome(rows: seq<seq<int>>, points: int)

  /** The row a card ends up in: where `play_card` places it, or, when it is
      below every head, the row the player takes (the one with the fewest
      points, as every player modelled here chooses). */
  function Destination(rows: seq<seq<int>>, card: int): (t: nat)
    requires rows != []
    ensures t < |rows|
  {
    match Placement(rows, card)
    case Some(i) => i
    case None => ChooseRow(rows)
  }

  /** One iteration of the resolution loop, on values: `play_card`, and on
      -1 `choose_row` followed by `clear_row`. */
  function Resolve(rows: seq<seq<int>>, card: int): (o: Outcome)
    requires rows != []
    ensures |o.rows| == |rows| && o.points >= 0
  {
    var t := Destination(rows, card);
    if Placement(rows, card).Some? then
      Outcome(rows[t := AfterAdd(rows[t], card)], AddScore(rows[t]))
    else
      Outcome(rows[t := if card != 0 then [card] else []], SumPoints(rows[t]))
  }

  /** The rows after the cards are resolved one after the other. */
  function ResolveAll(rows: seq<seq<int>>, cards: seq<int>): (r: seq<seq<int>>)
    requires rows != []
    ensures |r| == |rows|
    decreases |cards|
  {
    if cards == [] then rows
    else Resolve(ResolveAll(rows, cards[..|cards| - 1]), cards[|cards| - 1]).rows
  }

  /** Every row of a board in play holds the row invariant. */
  ghost predicate RowsInPlay(rows: seq<seq<int>>) {
    AllNonEmpty(rows) && forall i :: 0 <= i < |rows| ==> RowInvariant(rows[i])
  }

  /** Resolving a card keeps every row in play. */
  lemma ResolveKeepsRows(rows: seq<seq<int>>, card: int)
    requires |rows| == RowCount && RowsInPlay(rows) && card != 0
    ensures RowsInPlay(Resolve(rows, card).rows)
  {
    var t := Destination(rows, card);
    var next := Resolve(rows, card).rows;
    if Placement(rows, card).Some? {
      AddKeepsInvariant(rows[t], card);
      assert next == rows[t := AfterAdd(rows[t], card)];
    } else {
      assert next == rows[t := [card]];
    }
    assert forall i :: 0 <= i < |rows| && i != t ==> next[i] == rows[i];
  }

  /** A resolved card changes exactly one row and becomes its head; the
      rows stay in play, and no card costs more than a full row of the most
      expensive cards. */
  lemma ResolveChangesOneRow(rows: seq<seq<int>>, card: int)
    requires |rows| == RowCount && RowsInPlay(rows) && card != 0
    ensures var o, t := Resolve(rows, card), Destination(rows, card);
      && RowsInPlay(o.rows)
      && Last(o.rows[t]) == card
      && (forall i :: 0 <= i < |rows| && i != t ==> o.rows[i] == rows[i])
      && 0 <= o.points <= 7 * CardLimit
  {
    var t := Destination(rows, card);
    ResolveKeepsRows(rows, card);
    if Placement(rows, card).Some? {
      AddKeepsInvariant(rows[t], card);
    }
  }

  /** The player takes the destination row, receiving its points, exactly
      when the row was full or the card was below every head; otherwise the
      card is appended and scores nothing. */
  lemma ResolveTakesOrAppends(rows: seq<seq<int>>, card: int)
    requires |rows| == RowCount && RowsInPlay(rows) && card != 0
    ensures var o, t := Resolve(rows, card), Destination(rows, card);
      && ((|rows[t]| == CardLimit || forall i :: 0 <= i < |rows| ==> card <= Last(rows[i])) ==>
            o.rows[t] == [card] && o.points == SumPoints(rows[t]))
      && ((|rows[t]| < CardLimit && exists i :: 0 <= i < |rows| && Last(rows[i]) < card) ==>
            o.rows[t] == rows[t] + [card] && o.points == 0)
  {
    var t := Destination(rows, card);
    PlacementRule(rows, card);
    if Placement(rows, card).Some? {
      assert Last(rows[t]) < card;
      assert |rows[t]| <= CardLimit;
    }
  }

  /** A card below every head makes its player take the row with the
      fewest points, and the player never receives more than any other row
      would have given. */
  lemma LowCardTakesCheapestRow(rows: seq<seq<int>>, card: int)
    requires rows != [] && AllNonEmpty(rows)
    requires forall i :: 0 <= i < |rows| ==> card <= Last(rows[i])
    ensures Destination(rows, card) == ChooseRow(rows)
    ensures forall j :: 0 <= j < |rows| ==> Resolve(rows, card).points <= SumPoints(rows[j])
  {
    PlacementRule(rows, card);
  }

  /** Resolving any number of deck cards keeps the board in play. */
  lemma {:induction false} ResolveAllKeepsRows(rows: seq<seq<int>>, cards: seq<int>)
    requires |rows| == RowCount && RowsInPlay(rows)
    requires forall i :: 0 <= i < |cards| ==> cards[i] != 0
    ensures RowsInPlay(ResolveAll(rows, cards))
    decreases |cards|
  {
    if cards != [] {
      ResolveAllKeepsRows(rows, cards[..|cards| - 1]);
      ResolveChangesOneRow(ResolveAll(rows, cards[..|cards| - 1]), cards[|cards| - 1]);
    }
  }

  /** The points that resolving `order` on `rows` brings the player `p`:
      each card the map attributes to `p` brings what resolving it gives,
      on the rows left by the cards before it. */
  ghost function Gain(rows: seq<seq<int>>, order: seq<int>, cardPlayers: map<int, Player>, p: Player): (g: int)
    requires rows != []
    ensures 0 <= g
    decreases |order|
  {
    if order == [] then 0
    else
      var n := |order| - 1;
      Gain(rows, order[..n], cardPlayers, p) + CardGain(ResolveAll(rows, order[..n]), order[n], cardPlayers, p)
  }

  /** What one card brings `p`: its points if the map names `p` for it. */
  ghost function CardGain(rows: seq<seq<int>>, card: int, cardPlayers: map<int, Player>, p: Player): int
    requires rows != []
  {
    if card in cardPlayers && cardPlayers[card] == p then Resolve(rows, card).points else 0
  }

  /** Resolving one more card adds that card's share to each player's gain. */
  lemma GainStep(rows: seq<seq<int>>, order: seq<int>, j: nat, cardPlayers: map<int, Player>)
    requires rows != [] && j < |order|
    ensures forall p :: (Gain(rows, order[..j + 1], cardPlayers, p)
      == Gain(rows, order[..j], cardPlayers, p) + CardGain(ResolveAll(rows, order[..j]), order[j], cardPlayers, p))
  {
    assert order[..j + 1][..j] == order[..j];
  }

  /** A player the map names for none of the cards gains nothing. */
  lemma {:induction false} GainUnnamed(rows: seq<seq<int>>, order: seq<int>, cardPlayers: map<int, Player>, p: Player)
    requires rows != []
    requires forall c :: c in cardPlayers ==> cardPlayers[c] != p
    ensures Gain(rows, order, cardPlayers, p) == 0
    decreases |order|
  {
    if order != [] {
      GainUnnamed(rows, order[..|order| - 1], cardPlayers, p);
    }
  }

  /** All the points that resolving `order` on `rows` hands out. */
  ghost function TotalPoints(rows: seq<seq<int>>, order: seq<int>): int
    requires rows != []
    decreases |order|
  {
    if order == [] then 0
    else
      var n := |order| - 1;
      TotalPoints(rows, order[..n]) + Resolve(ResolveAll(rows, order[..n]), order[n]).points
  }

  /** The gains of the players `ps`, added up. */
  ghost function SumGains(rows: seq<seq<int>>, order: seq<int>, cardPlayers: map<int, Player>, ps: seq<Player>): int
    requires rows != []
  {
    if ps == [] then 0 else Gain(rows, order, cardPlayers, ps[0]) + SumGains(rows, order, cardPlayers, ps[1..])
  }

  /** What one card brings the players `ps`, added up. */
  ghost function SumCardGains(rows: seq<seq<int>>, card: int, cardPlayers: map<int, Player>, ps: seq<Player>): int
    requires rows != []
  {
    if ps == [] then 0 else CardGain(rows, card, cardPlayers, ps[0]) + SumCardGains(rows, card, cardPlayers, ps[1..])
  }

  /** No point is lost or handed out twice: when every card is attributed
      to one of the distinct players `ps`, their gains add up to all the
      points the cards bring. */
  lemma {:induction false} GainsAddUp(rows: seq<seq<int>>, order: seq<int>, cardPlayers: map<int, Player>, ps: seq<Player>)
    requires rows != []
    requires forall i, j :: 0 <= i < j < |ps| ==> ps[i] != ps[j]
    requires forall i :: 0 <= i < |order| ==> order[i] in cardPlayers && cardPlayers[order[i]] in ps
    ensures SumGains(rows, order, cardPlayers, ps) == TotalPoints(rows, order)
    decreases |order|
  {
    if order == [] {
      SumGainsNone(rows, cardPlayers, ps);
    } else {
      var n := |order| - 1;
      assert forall i :: 0 <= i < n ==> order[..n][i] == order[i];
      GainsAddUp(rows, order[..n], cardPlayers, ps);
      SumGainsStep(rows, order, cardPlayers, ps);
      SumCardGainsOwner(ResolveAll(rows, order[..n]), order[n], cardPlayers, ps);
    }
  }

  /** In a turn, the players' gains from the sorted played cards add up to
      all the points those cards bring. */
  lemma TurnGainsAddUp(rows: seq<seq<int>>, played: seq<int>, order: seq<int>, players: seq<Player>)
    requires rows != [] && |played| == |players|
    requires forall i, j :: 0 <= i < j < |players| ==> players[i] != players[j]
    requires multiset(order) == multiset(played)
    ensures SumGains(rows, order, MapOf(played, players), players) == TotalPoints(rows, order)
  {
    var m := MapOf(played, players);
    forall i | 0 <= i < |order| ensures order[i] in m && m[order[i]] in players {
      assert order[i] in multiset(played);
    }
    GainsAddUp(rows, order, m, players);
  }

  lemma {:induction false} SumGainsNone(rows: seq<seq<int>>, cardPlayers: map<int, Player>, ps: seq<Player>)
    requires rows != []
    ensures SumGains(rows, [], cardPlayers, ps) == 0
    decreases |ps|
  {
    if ps != [] {
      SumGainsNone(rows, cardPlayers, ps[1..]);
    }
  }

  /** One more card adds its share to the players' summed gains. */
  lemma {:induction false} SumGainsStep(rows: seq<seq<int>>, order: seq<int>, cardPlayers: map<int, Player>, ps: seq<Player>)
    requires rows != [] && order != []
    ensures var n := |order| - 1;
      SumGains(rows, order, cardPlayers, ps)
        == SumGains(rows, order[..n], cardPlayers, ps) + SumCardGains(ResolveAll(rows, order[..n]), order[n], cardPlayers, ps)
    decreases |ps|
  {
    if ps != [] {
      SumGainsStep(rows, order, cardPlayers, ps[1..]);
    }
  }

  /** A card's points go to its one owner among the distinct players `ps`. */
  lemma {:induction false} SumCardGainsOwner(rows: seq<seq<int>>, card: int, cardPlayers: map<int, Player>, ps: seq<Player>)
    requires rows != []
    requires forall i, j :: 0 <= i < j < |ps| ==> ps[i] != ps[j]
    requires card in cardPlayers && cardPlayers[card] in ps
    ensures SumCardGains(rows, card, cardPlayers, ps) == Resolve(rows, card).points
    decreases |ps|
  {
    var rest := ps[1..];
    assert forall i, j :: 0 <= i < j < |rest| ==> rest[i] != rest[j] by {
      forall i, j | 0 <= i < j < |rest| ensures rest[i] != rest[j] {
        assert rest[i] == ps[i + 1] && rest[j] == ps[j + 1];
      }
    }
    if cardPlayers[card] == ps[0] {
      assert cardPlayers[card] !in rest by {
        forall i | 0 <= i < |rest| ensures rest[i] != ps[0] {
          assert rest[i] == ps[i + 1];
        }
      }
      SumCardGainsNotOwner(rows, card, cardPlayers, rest);
    } else {
      assert cardPlayers[card] in rest by {
        var k :| 0 <= k < |ps| && ps[k] == cardPlayers[card];
        assert rest[k - 1] == ps[k];
      }
      SumCardGainsOwner(rows, card, cardPlayers, rest);
    }
  }

  /** A card whose owner is not among `ps` brings them nothing. */
  lemma {:induction false} SumCardGainsNotOwner(rows: seq<seq<int>>, card: int, cardPlayers: map<int, Player>, ps: seq<Player>)
    requires rows != []
    requires card in cardPlayers && cardPlayers[card] !in ps
    ensures SumCardGains(rows, card, cardPlayers, ps) == 0
    decreases |ps|
  {
    if ps != [] {
      assert cardPlayers[card] !in ps[1..];
      SumCardGainsNotOwner(rows, card, cardPlayers, ps[1..]);
    }
  }

  // ---------------------------------------------------------------------
  // The game
  // ---------------------------------------------------------------------

  /** The card a player played in a turn came out of their hand. */
  ghost predicate Chosen(before: seq<int>, after: seq<int>, card: int) {
    && card in before
    && |after| == |before| - 1
    && multiset(after) == multiset(before) - multiset{card}
  }

  /** Sorting deck cards gives deck cards, each one of those sorted. */
  lemma SortedInDeck(cards: seq<int>)
    requires InDeck(cards)
    ensures InDeck(Sort(cards))
    ensures forall i :: 0 <= i < |Sort(cards)| ==> Sort(cards)[i] in cards
  {
    SortMembers(cards);
    forall i | 0 <= i < |Sort(cards)| ensures 1 <= Sort(cards)[i] <= DeckSize {
      var k :| 0 <= k < |cards| && cards[k] == Sort(cards)[i];
    }
  }

  lemma ChosenInDeck(before: seq<int>, after: seq<int>, card: int)
    requires InDeck(before) && Chosen(before, after, card)
    ensures InDeck(after) && 1 <= card <= DeckSize
  {
    forall i | 0 <= i < |after| ensures 1 <= after[i] <= DeckSize {
      assert after[i] in multiset(after);
      assert after[i] in multiset(before);
      var k :| 0 <= k < |before| && before[k] == after[i];
    }
  }

  /** The players' points, in order. */
  function ScoresOf(players: seq<Player>): (scores: seq<int>)
    reads players`points
    ensures |scores| == |players|
    ensures forall k :: 0 <= k < |players| ==> scores[k] == players[k].points
  {
    if players == [] then [] else [players[0].points] + ScoresOf(players[1..])
  }

  /** Every hand is made of deck cards, and none is empty. */
  ghost predicate HandsToPlay(hands: seq<seq<int>>) {
    forall k :: 0 <= k < |hands| ==> hands[k] != [] && InDeck(hands[k])
  }

  /** The players' hands went from `before` to `after`, player by player,
      each player playing the matching card of `cards`. */
  ghost predicate Played(before: seq<seq<int>>, after: seq<seq<int>>, cards: seq<int>)
    decreases |cards|
  {
    && |before| == |after| == |cards|
    && (cards != [] ==>
          var n := |cards| - 1;
          && Played(before[..n], after[..n], cards[..n])
          && Chosen(before[n], after[n], cards[n]) && InDeck(after[n]))
  }

  /** Each player played their card out of their hand and kept deck cards. */
  lemma {:induction false} PlayedMeaning(before: seq<seq<int>>, after: seq<seq<int>>, cards: seq<int>)
    requires Played(before, after, cards)
    ensures forall k :: 0 <= k < |cards| ==> Chosen(before[k], after[k], cards[k]) && InDeck(after[k])
    decreases |cards|
  {
    if cards != [] {
      var n := |cards| - 1;
      PlayedMeaning(before[..n], after[..n], cards[..n]);
      forall k | 0 <= k < n ensures Chosen(before[k], after[k], cards[k]) && InDeck(after[k]) {
        assert before[..n][k] == before[k] && after[..n][k] == after[k] && cards[..n][k] == cards[k];
      }
    }
  }

  /** After a turn every hand is one card shorter and still holds deck cards. */
  lemma PlayedShrinks(before: seq<seq<int>>, after: seq<seq<int>>, cards: seq<int>)
    requires Played(before, after, cards)
    ensures |after| == |before|
    ensures forall k :: 0 <= k < |after| ==> |after[k]| == |before[k]| - 1 && InDeck(after[k])
  {
    PlayedMeaning(before, after, cards);
  }

  /** The converse: player-by-player choices make a played turn. */
  lemma {:induction false} MeaningPlayed(before: seq<seq<int>>, after: seq<seq<int>>, cards: seq<int>)
    requires |before| == |after| == |cards|
    requires forall k :: 0 <= k < |cards| ==> Chosen(before[k], after[k], cards[k]) && InDeck(after[k])
    ensures Played(before, after, cards)
    decreases |cards|
  {
    if cards != [] {
      var n := |cards| - 1;
      forall k | 0 <= k < n ensures Chosen(before[..n][k], after[..n][k], cards[..n][k]) && InDeck(after[..n][k]) {
        assert before[..n][k] == before[k] && after[..n][k] == after[k] && cards[..n][k] == cards[k];
      }
      MeaningPlayed(before[..n], after[..n], cards[..n]);
    }
  }

  /** The cards played from hands of deck cards are deck cards. */
  lemma PlayedInDeck(before: seq<seq<int>>, after: seq<seq<int>>, cards: seq<int>)
    requires Played(before, after, cards) && HandsToPlay(before)
    ensures InDeck(cards)
  {
    PlayedMeaning(before, after, cards);
    forall k | 0 <= k < |cards| ensures 1 <= cards[k] <= DeckSize {
      assert cards[k] in before[k];
    }
  }

  /** Played one player at a time: a played prefix of the players followed
      by the next player's choice is a played prefix one longer. */
  lemma PlayedStep(before: seq<seq<int>>, after: seq<seq<int>>, cards: seq<int>, card: int, rest: seq<int>)
    requires |after| == |cards| < |before|
    requires Played(before[..|cards|], after, cards)
    requires Chosen(before[|cards|], rest, card) && InDeck(rest)
    ensures Played(before[..|cards| + 1], after + [rest], cards + [card])
  {
    var i := |cards|;
    assert before[..i + 1][..i] == before[..i];
    assert (after + [rest])[..i] == after && (cards + [card])[..i] == cards;
  }

  /** Every player's card and remaining hand are what their strategy makes
      of their hand, all looking at the same `rows`. */
  ghost predicate Strategic(players: seq<Player>, rows: seq<seq<int>>, before: seq<seq<int>>, after: seq<seq<int>>, cards: seq<int>)
    decreases |cards|
  {
    && |players| == |before| == |after| == |cards|
    && (cards != [] ==>
          var n := |cards| - 1;
          && Strategic(players[..n], rows, before[..n], after[..n], cards[..n])
          && before[n] != [] && AllNonEmpty(rows)
          && FollowsStrategy(players[n].strategy, before[n], rows, cards[n], after[n]))
  }

  /** In a strategic turn the card of player `k` is the one their strategy
      picks from their hand, and their hand is what the strategy leaves. */
  lemma {:induction false} StrategicMeaning(players: seq<Player>, rows: seq<seq<int>>, before: seq<seq<int>>, after: seq<seq<int>>, cards: seq<int>, k: nat)
    requires Strategic(players, rows, before, after, cards) && k < |cards|
    ensures before[k] != [] && AllNonEmpty(rows)
    ensures FollowsStrategy(players[k].strategy, before[k], rows, cards[k], after[k])
    decreases |cards|
  {
    var n := |cards| - 1;
    if k < n {
      StrategicMeaning(players[..n], rows, before[..n], after[..n], cards[..n], k);
      assert players[..n][k] == players[k] && before[..n][k] == before[k];
      assert after[..n][k] == after[k] && cards[..n][k] == cards[k];
    }
  }

  /** The same for every player at once. */
  lemma StrategicAll(players: seq<Player>, rows: seq<seq<int>>, before: seq<seq<int>>, after: seq<seq<int>>, cards: seq<int>)
    requires Strategic(players, rows, before, after, cards)
    ensures forall k :: 0 <= k < |cards| ==>
      before[k] != [] && FollowsStrategy(players[k].strategy, before[k], rows, cards[k], after[k])
  {
    forall k | 0 <= k < |cards|
      ensures before[k] != [] && FollowsStrategy(players[k].strategy, before[k], rows, cards[k], after[k])
    {
      StrategicMeaning(players, rows, before, after, cards, k);
    }
  }

  /** The converse, one player at a time: strategic choices of the first
      players, followed by the next player's, are strategic choices of one
      more player. */
  lemma StrategicStep(players: seq<Player>, rows: seq<seq<int>>, before: seq<seq<int>>, after: seq<seq<int>>, cards: seq<int>,
                      card: int, rest: seq<int>)
    requires |after| == |cards| < |players| == |before|
    requires Strategic(players[..|cards|], rows, before[..|cards|], after, cards)
    requires before[|cards|] != [] && AllNonEmpty(rows)
    requires FollowsStrategy(players[|cards|].strategy, before[|cards|], rows, card, rest)
    ensures Strategic(players[..|cards| + 1], rows, before[..|cards| + 1], after + [rest], cards + [card])
  {
    var i := |cards|;
    assert players[..i + 1][..i] == players[..i] && before[..i + 1][..i] == before[..i];
    assert (after + [rest])[..i] == after && (cards + [card])[..i] == cards;
  }

  /** One more player's choice extends both the played turn and the
      strategic turn. */
  lemma TurnStep(players: seq<Player>, rows: seq<seq<int>>, before: seq<seq<int>>, after: seq<seq<int>>, cards: seq<int>, card: int, rest: seq<int>)
    requires |after| == |cards| < |players| == |before|
    requires Played(before[..|cards|], after, cards)
    requires Strategic(players[..|cards|], rows, before[..|cards|], after, cards)
    requires Chosen(before[|cards|], rest, card) && InDeck(rest) && before[|cards|] != [] && AllNonEmpty(rows)
    requires FollowsStrategy(players[|cards|].strategy, before[|cards|], rows, card, rest)
    ensures Played(before[..|cards| + 1], after + [rest], cards + [card])
    ensures Strategic(players[..|cards| + 1], rows, before[..|cards| + 1], after + [rest], cards + [card])
  {
    PlayedStep(before, after, cards, card, rest);
    StrategicStep(players, rows, before, after, cards, card, rest);
  }

  /** `played_cards.sort()`: the played cards in ascending order, a
      permutation of them (by SortedUnique, the only such sequence). */
  method SortCards(cards: seq<int>) returns (order: seq<int>)
    requires InDeck(cards)
    ensures Ascending(order) && multiset(order) == multiset(cards)
    ensures InDeck(order) && forall i :: 0 <= i < |order| ==> order[i] in cards
  {
    order := Sort(cards);
    SortedInDeck(cards);
  }

  class Take5 {
    const players: seq<Player>
    const board: Board

    ghost predicate Valid()
      reads this, board, board.rows
    {
      && board.Valid()
      && |players| <= MaxPlayers
      && (forall i, j :: 0 <= i < j < |players| ==> players[i] != players[j])
    }

    /** The players' ids, in order. */
    function Ids(): seq<string>
      reads this
    {
      seq(|players|, i requires 0 <= i < |players| => players[i].id)
    }

    constructor (players: seq<Player>)
      requires |players| <= MaxPlayers
      requires forall i, j :: 0 <= i < j < |players| ==> players[i] != players[j]
      ensures Valid() && this.players == players && fresh(board) && fresh(board.rows)
      ensures board.Cards() == [[], [], [], []]
    {
      this.players := players;
      board := new Board();
    }

    /** `deal()`: empties the board, then deals the shuffled deck: each
        player in turn receives its last Turns cards, and then each row
        receives the card popped from what is left. Points do not change. */
    method Deal(deck: seq<int>)
      requires Valid() && IsShuffledDeck(deck)
      modifies board.rows, players`hand
      ensures Valid()
      ensures Turns * |players| + RowCount <= |deck|
      ensures board.Cards() == StartRows(deck, |players|) && RowsInPlay(board.Cards())
      ensures forall i :: 0 <= i < |players| ==> players[i].hand == DealtHand(deck, i)
      ensures forall i :: 0 <= i < |players| ==> |players[i].hand| == Turns && InDeck(players[i].hand)
    {
      board.Clear();
      var rest := DealHands(deck);
      PartialStartEnds(rest);
      StartRowsFrom(rest);
      StartRowsAfterCut(deck, |players|);
      DealFits(deck, |players|);
    }

    /** The loop over the players: each receives the last Turns cards of
        the deck, which is then cut; the cut deck is returned. */
    method DealHands(deck: seq<int>) returns (rest: seq<int>)
      requires Valid() && IsShuffledDeck(deck)
      modifies players`hand
      ensures Turns * |players| + RowCount <= |deck|
      ensures rest == deck[..|deck| - Turns * |players|]
      ensures forall i :: 0 <= i < |players| ==> players[i].hand == DealtHand(deck, i)
      ensures forall i :: 0 <= i < |players| ==> |players[i].hand| == Turns && InDeck(players[i].hand)
    {
      DealFits(deck, |players|);
      rest := deck;
      for i := 0 to |players|
        invariant rest == deck[..|deck| - Turns * i]
        invariant forall k :: 0 <= k < i ==> players[k].hand == DealtHand(deck, k)
      {
        var hand := rest[|rest| - Turns..];
        assert hand == DealtHand(deck, i);
        rest := rest[..|rest| - Turns];
        players[i].ReceiveHand(hand);
      }
    }

    /** The loop over the rows of an empty board: each row receives the card
        popped from the deck. */
    method StartRowsFrom(deck: seq<int>)
      requires RowCount <= |deck|
      requires Valid() && board.Cards() == PartialStart(deck, 0)
      modifies board.rows
      ensures Valid()
      ensures board.Cards() == StartRows(deck, 0)
    {
      var rest := deck;
      for j := 0 to RowCount
        invariant Valid()
        invariant rest == deck[..|deck| - j]
        invariant board.Cards() == PartialStart(deck, j)
      {
        var card := rest[|rest| - 1];
        rest := rest[..|rest| - 1];
        StartRow(deck, j, card);
      }
      PartialStartEnds(deck);
    }

    /** One step of that loop: row `j` receives the popped card. */
    method StartRow(ghost deck: seq<int>, j: nat, card: int)
      requires RowCount <= |deck| && j < RowCount && card == deck[|deck| - 1 - j]
      requires Valid() && board.Cards() == PartialStart(deck, j)
      modifies board.rows
      ensures Valid()
      ensures board.Cards() == PartialStart(deck, j + 1)
    {
      PartialStartStep(deck, j);
      var _ := board.AddToRow(j, card);
    }

    /** One card of the resolution loop: `play_card`; on -1 the player
        chooses the row with the fewest points and takes it with
        `clear_row`, the card replacing it; the player receives the points. */
    method ResolveCard(card: int, player: Player)
      requires Valid() && RowsInPlay(board.Cards()) && card != 0
      modifies board.rows, player`points
      ensures Valid() && RowsInPlay(board.Cards())
      ensures board.Cards() == Resolve(old(board.Cards()), card).rows
      ensures player.points == old(player.points) + Resolve(old(board.Cards()), card).points
    {
      var points := PlaceOnBoard(card);
      player.AddPoints(points);
    }

    /** The board's part of resolving a card: the returned points are those
        the player receives. */
    method PlaceOnBoard(card: int) returns (points: int)
      requires Valid() && RowsInPlay(board.Cards()) && card != 0
      modifies board.rows
      ensures Valid() && RowsInPlay(board.Cards())
      ensures board.Cards() == Resolve(old(board.Cards()), card).rows
      ensures points == Resolve(old(board.Cards()), card).points
    {
      ghost var before := board.Cards();
      ghost var o := Resolve(before, card);
      ResolveKeepsRows(before, card);
      points := board.PlayCard(card);
      if points == -1 {
        var rowIndex := ChooseRow(board.Cards());
        assert rowIndex == Destination(before, card);
        points := board.ClearRow(rowIndex, card);
      }
    }

    /** One turn: every player picks a card from their hand, looking at the
        same board; the cards are then resolved in ascending order, each on
        behalf of the (last) player who played it. `hands` and `after` are
        the hands before and after the turn, `played` the cards in play
        order and `order` the same cards sorted. */
    method Turn(ghost hands: seq<seq<int>>)
      returns (ghost played: seq<int>, ghost order: seq<int>, ghost after: seq<seq<int>>)
      requires Valid() && RowsInPlay(board.Cards()) && HandsToPlay(hands)
      requires |hands| == |players| && forall k :: 0 <= k < |players| ==> players[k].hand == hands[k]
      modifies board.rows, players`hand, players`points
      ensures Valid() && RowsInPlay(board.Cards())
      ensures Played(hands, after, played) && Strategic(players, old(board.Cards()), hands, after, played)
      ensures forall k :: 0 <= k < |players| ==> players[k].hand == after[k]
      ensures forall k :: 0 <= k < |players| ==>
        players[k].points == old(players[k].points) + Gain(old(board.Cards()), order, MapOf(played, players), players[k])
      ensures forall k :: 0 <= k < |players| ==> old(players[k].points) <= players[k].points
      ensures Ascending(order) && multiset(order) == multiset(played)
      ensures board.Cards() == ResolveAll(old(board.Cards()), order)
    {
      var rows := board.Cards();
      var cards;
      cards, after := ChooseCards(rows, hands);
      assert board.Cards() == rows;
      played := cards;
      order := ResolvePlayed(cards);
    }

    /** The second half of a turn: the card-to-player map is built, the
        cards are sorted and resolved lowest first; `order` is the sorted
        sequence. */
    method ResolvePlayed(cards: seq<int>) returns (ghost order: seq<int>)
      requires Valid() && RowsInPlay(board.Cards()) && InDeck(cards) && |cards| == |players|
      modifies board.rows, players`points
      ensures Valid() && RowsInPlay(board.Cards())
      ensures forall k :: 0 <= k < |players| ==>
        players[k].points == old(players[k].points) + Gain(old(board.Cards()), order, MapOf(cards, players), players[k])
      ensures forall k :: 0 <= k < |players| ==> old(players[k].points) <= players[k].points
      ensures Ascending(order) && multiset(order) == multiset(cards)
      ensures board.Cards() == ResolveAll(old(board.Cards()), order)
    {
      var cardPlayers := CardPlayers(cards);
      var sorted := SortCards(cards);
      order := sorted;
      ResolveCards(sorted, cardPlayers);
    }

    /** Every player in turn chooses a card by their strategy, looking at
        the same `rows`; the cards are recorded in play order and `after`
        holds the hands left. */
    method ChooseCards(rows: seq<seq<int>>, ghost hands: seq<seq<int>>)
      returns (cards: seq<int>, ghost after: seq<seq<int>>)
      requires AllNonEmpty(rows) && HandsToPlay(hands)
      requires forall i, j :: 0 <= i < j < |players| ==> players[i] != players[j]
      requires |hands| == |players| && forall k :: 0 <= k < |players| ==> players[k].hand == hands[k]
      modifies players`hand
      ensures InDeck(cards) && Played(hands, after, cards) && Strategic(players, rows, hands, after, cards)
      ensures forall k :: 0 <= k < |players| ==> players[k].hand == after[k]
    {
      after := [];
      cards := [];
      for i := 0 to |players|
        invariant |cards| == |after| == i
        invariant Played(hands[..i], after, cards)
        invariant Strategic(players[..i], rows, hands[..i], after, cards)
        invariant forall k :: 0 <= k < i ==> players[k].hand == after[k]
        invariant forall k :: i <= k < |players| ==> players[k].hand == hands[k]
      {
        cards, after := ChooseNext(players[i], rows, hands, cards, after);
      }
      assert players[..|players|] == players && hands[..|players|] == hands;
      PlayedInDeck(hands, after, cards);
    }

    /** One iteration of that loop: the next player chooses, extending the
        played prefix by one player. */
    method ChooseNext(player: Player, rows: seq<seq<int>>, ghost hands: seq<seq<int>>, cards: seq<int>, ghost after: seq<seq<int>>)
      returns (cards': seq<int>, ghost after': seq<seq<int>>)
      requires AllNonEmpty(rows) && HandsToPlay(hands) && |hands| == |players|
      requires |cards| == |after| < |players| && player == players[|cards|]
      requires forall k :: 0 <= k < |players| && k != |cards| ==> players[k] != player
      requires forall k :: 0 <= k < |cards| ==> players[k].hand == after[k]
      requires forall k :: |cards| <= k < |players| ==> players[k].hand == hands[k]
      requires Played(hands[..|cards|], after, cards)
      requires Strategic(players[..|cards|], rows, hands[..|cards|], after, cards)
      modifies player`hand
      ensures |cards'| == |after'| == |cards| + 1
      ensures forall k :: 0 <= k < |cards'| ==> players[k].hand == after'[k]
      ensures forall k :: |cards'| <= k < |players| ==> players[k].hand == hands[k]
      ensures Played(hands[..|cards| + 1], after', cards')
      ensures Strategic(players[..|cards| + 1], rows, hands[..|cards| + 1], after', cards')
    {
      var i := |cards|;
      var card;
      ghost var rest;
      card, rest := PlayerChooses(player, rows, hands[i]);
      after' := after + [rest];
      cards' := cards + [card];
      TurnStep(players, rows, hands, after, cards, card, rest);
    }

    /** The map from a played card to the player who played it, as the
        comprehension over the players' choices builds it: a later player
        with the same card replaces an earlier one. */
    method CardPlayers(cards: seq<int>) returns (cardPlayers: map<int, Player>)
      requires |cards| == |players|
      ensures cardPlayers == MapOf(cards, players)
      ensures forall i :: 0 <= i < |cards| ==> cards[i] in cardPlayers
      ensures forall c :: c in cardPlayers ==> cardPlayers[c] in players
    {
      cardPlayers := MapOf(cards, players);
    }

    /** One player's `choose_card`, seen from the game: the card is
        the one the player's strategy picks, and it comes out of the hand. */
    method PlayerChooses(player: Player, rows: seq<seq<int>>, ghost hand: seq<int>)
      returns (card: int, ghost rest: seq<int>)
      requires player.hand == hand && hand != [] && InDeck(hand) && AllNonEmpty(rows)
      modifies player`hand
      ensures player.hand == rest
      ensures Chosen(hand, rest, card) && InDeck(rest) && 1 <= card <= DeckSize
      ensures FollowsStrategy(player.strategy, hand, rows, card, rest)
    {
      card := player.ChooseCard(rows);
      rest := player.hand;
      ChosenInDeck(hand, rest, card);
    }

    /** The loop over the sorted cards: each is resolved on behalf of the
        player the map names. */
    method ResolveCards(order: seq<int>, cardPlayers: map<int, Player>)
      requires Valid() && RowsInPlay(board.Cards())
      requires InDeck(order) && forall i :: 0 <= i < |order| ==> order[i] in cardPlayers
      requires forall c :: c in cardPlayers ==> cardPlayers[c] in players
      modifies board.rows, players`points
      ensures Valid() && RowsInPlay(board.Cards())
      ensures forall k :: 0 <= k < |players| ==>
        players[k].points == old(players[k].points) + Gain(old(board.Cards()), order, cardPlayers, players[k])
      ensures forall k :: 0 <= k < |players| ==> old(players[k].points) <= players[k].points
      ensures board.Cards() == ResolveAll(old(board.Cards()), order)
    {
      ghost var rows := board.Cards();
      ghost var start := seq(|players|, k requires 0 <= k < |players| reads players => players[k].points);
      for j := 0 to |order|
        invariant Valid() && RowsInPlay(board.Cards())
        invariant board.Cards() == ResolveAll(rows, order[..j])
        invariant forall k :: 0 <= k < |players| ==> players[k].points == start[k] + Gain(rows, order[..j], cardPlayers, players[k])
      {
        ResolveNext(rows, order, j, cardPlayers, start);
      }
      assert order[..|order|] == order;
    }

    /** One iteration of that loop: the card `order[j]` is resolved on
        behalf of its player, extending the resolved prefix by one card. */
    method ResolveNext(ghost rows: seq<seq<int>>, order: seq<int>, j: nat, cardPlayers: map<int, Player>, ghost start: seq<int>)
      requires Valid() && RowsInPlay(board.Cards()) && rows != []
      requires j < |order| && 1 <= order[j] && order[j] in cardPlayers && cardPlayers[order[j]] in players
      requires board.Cards() == ResolveAll(rows, order[..j])
      requires |start| == |players|
      requires forall k :: 0 <= k < |players| ==> players[k].points == start[k] + Gain(rows, order[..j], cardPlayers, players[k])
      modifies board.rows, players`points
      ensures Valid() && RowsInPlay(board.Cards())
      ensures board.Cards() == ResolveAll(rows, order[..j + 1])
      ensures cardPlayers[order[j]].points == old(cardPlayers[order[j]].points) + Resolve(old(board.Cards()), order[j]).points
      ensures forall k :: 0 <= k < |players| && players[k] != cardPlayers[order[j]] ==> players[k].points == old(players[k].points)
      ensures forall k :: 0 <= k < |players| ==> players[k].points == start[k] + Gain(rows, order[..j + 1], cardPlayers, players[k])
    {
      assert order[..j + 1][..j] == order[..j];
      ResolveCard(order[j], cardPlayers[order[j]]);
      GainStep(rows, order, j, cardPlayers);
    }

    /** `round()`: deals the shuffled deck, plays Turns turns, and returns
        each player's points by id. Every hand is then empty, the board is
        still in play, and nobody's points went down. */
    method Round(deck: seq<int>) returns (standings: map<string, int>)
      requires Valid() && IsShuffledDeck(deck)
      modifies board.rows, players`hand, players`points
      ensures Valid() && RowsInPlay(board.Cards())
      ensures forall k :: 0 <= k < |players| ==> players[k].hand == [] && old(players[k].points) <= players[k].points
      ensures standings == MapOf(Ids(), ScoresOf(players))
    {
      DealAndPlay(deck);
      standings := Standings();
    }

    /** The body of `round()` before the standings: the deal, then the
        turns. */
    method DealAndPlay(deck: seq<int>)
      requires Valid() && IsShuffledDeck(deck)
      modifies board.rows, players`hand, players`points
      ensures Valid() && RowsInPlay(board.Cards())
      ensures forall k :: 0 <= k < |players| ==> players[k].hand == [] && old(players[k].points) <= players[k].points
    {
      Deal(deck);
      PlayTurns();
    }

    /** The loop over the Turns turns of a round, from hands of Turns deck
        cards each: every hand ends empty. */
    method PlayTurns()
      requires Valid() && RowsInPlay(board.Cards())
      requires forall k :: 0 <= k < |players| ==> |players[k].hand| == Turns && InDeck(players[k].hand)
      modifies board.rows, players`hand, players`points
      ensures Valid() && RowsInPlay(board.Cards())
      ensures forall k :: 0 <= k < |players| ==> players[k].hand == []
      ensures forall k :: 0 <= k < |players| ==> old(players[k].points) <= players[k].points
    {
      ghost var current := seq(|players|, k requires 0 <= k < |players| reads players => players[k].hand);
      ghost var start := seq(|players|, k requires 0 <= k < |players| reads players => players[k].points);
      for t := 0 to Turns
        invariant Valid() && RowsInPlay(board.Cards())
        invariant |current| == |players|
        invariant forall k :: 0 <= k < |players| ==> players[k].hand == current[k]
        invariant forall k :: 0 <= k < |players| ==> |current[k]| == Turns - t && InDeck(current[k])
        invariant forall k :: 0 <= k < |players| ==> start[k] <= players[k].points
      {
        ghost var played, order, after := Turn(current);
        PlayedShrinks(current, after, played);
        current := after;
      }
    }

    /** The result of `round()`: each player's points by id, a later
        player with the same id replacing an earlier one. */
    method Standings() returns (standings: map<string, int>)
      ensures standings == MapOf(Ids(), ScoresOf(players))
    {
      ghost var ids, scores := Ids(), ScoresOf(players);
      standings := map[];
      for i := 0 to |players|
        invariant standings == MapOf(ids[..i], scores[..i])
      {
        MapOfAppend(ids[..i], scores[..i], players[i].id, players[i].points);
        assert ids[..i + 1] == ids[..i] + [ids[i]] && scores[..i + 1] == scores[..i] + [scores[i]];
        standings := standings[players[i].id := players[i].points];
      }
      assert ids[..|players|] == ids && scores[..|players|] == scores;
    }
  }

  /** `Take5(players)`: refuses more than MaxPlayers players with an error,
      otherwise sets up a game with an empty board. */
  method NewGame(players: seq<Player>) returns (game: Option<Take5>)
    requires forall i, j :: 0 <= i < j < |players| ==> players[i] != players[j]
    ensures game.None? <==> |players| > MaxPlayers
    ensures game.Some? ==> game.value.Valid() && game.value.players == players
    ensures game.Some? ==> fresh(game.value.board) && fresh(game.value.board.rows)
    ensures game.Some? ==> game.value.board.Cards() == [[], [], [], []]
  {
    if |players| > MaxPlayers {
      return None;
    }
    var g := new Take5(players);
    game := Some(g);
  }

  /** `Take5(players)` followed by one `round()` on a shuffled deck, as the
      program's driver uses them: too many players are refused, and
      otherwise the standings hold exactly the players' ids. */
  method NewGameRound(players: seq<Player>, deck: seq<int>) returns (standings: Option<map<string, int>>)
    requires forall i, j :: 0 <= i < j < |players| ==> players[i] != players[j]
    requires IsShuffledDeck(deck)
    modifies set p | p in players
    ensures standings.None? <==> |players| > MaxPlayers
    ensures standings.Some? ==> standings.value.Keys == set i | 0 <= i < |players| :: players[i].id
  {
    var game := NewGame(players);
    if game.None? {
      return None;
    }
    var s := game.value.Round(deck);
    standings := Some(s);
    IdKeys(players, game.value.Ids());
  }

  /** The keys of a dict built from the players' ids are those ids. */
  lemma IdKeys(players: seq<Player>, ids: seq<string>)
    requires |ids| == |players| && forall i :: 0 <= i < |players| ==> ids[i] == players[i].id
    ensures (set k | k in ids) == set i | 0 <= i < |players| :: players[i].id
  {
  }
}
