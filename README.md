# Take 5 rules engine, modelled in Dafny

This project models the rules engine of the card game "Take 5" (6 Nimmt!) in
`take5.py`, together with its deterministic automated players.

- **Cards.** The deck holds the cards 1 to 104, and each card carries 1, 2, 3, 5 or 7 penalty points.
- **Board.** The board has four rows. Each row is a strictly ascending list of at most five cards.
- **Playing a card.** A played card goes to the first empty row. Otherwise it goes to the row whose head is the greatest head below it.
- **Taking a row.** When a row is full, adding a card takes the row: the player gets its points and the row restarts with the card. A card below every head makes its player take a row of their choice.
- **A round.** It deals ten cards to every player and one card to every row. Then it plays ten turns. In each turn every player picks a card, and the picked cards are resolved in ascending order.

The model follows the program's structure:

| file | module | what it holds |
|---|---|---|
| `lists.dfy` | `Lists` | The Python list built-ins the code uses: `min`, `max`, `index`, `remove`, `sort`, a dict built from pairs. |
| `cards.dfy` | `Cards` | `Card.points`. |
| `rows.dfy` | `Rows` | The `Row` class, with `cards` as a mutable `seq<int>` field. |
| `boards.dfy` | `Boards` | The `Board` class, a constant sequence of four `Row` objects, and the placement rule on values. |
| `players.dfy` | `Players` | The `Player` class, with mutable `hand` and `points`. The four deterministic strategies are a `Strategy` field. |
| `game.dfy` | `Game` | The `Take5` class with `deal` and `round`, the deck, and the resolution of played cards on values. |

## How it is modelled

**State and loops.**
- Objects whose fields the program updates are classes:
  - `Row.cards`;
  - `Player.hand` and `Player.points`;
  - the board's rows;
  - the game's players and board.
- Their methods carry `modifies` clauses.
- Each loop of the program is a method with a loop and its invariants:
  - `Board.clear`;
  - the empty-row search in `Board.play_card`;
  - the two best-so-far scans in the strategies;
  - the loops of `deal`;
  - the player loop of `round`;
  - the card loop of `round`;
  - the turn loop of `round`;
  - the dict comprehension of the result.

**Specification functions.** Every method is proved against a function on values:
- `Placement` says where `play_card` puts a card.
- `ChooseRow` is `choose_row`.
- `IsSmallestGapChoice` and `IsShortestRowChoice` say what the scans must pick.
- `StartRows` and `DealtHand` say what the deal produces.
- `Resolve` and `ResolveAll` say what the resolution loop does.

**How the program's special values appear.**
- The `-1` sentinel of `play_card` is kept as a return value.
- `CardTooLowException` becomes the `CardTooLow` result of `Row.AddCard`.
- The `ValueError` for more than ten players becomes `None` from `NewGame`.
- `clear(new_card)` tests the card's truth value, so a card of value 0 counts as "no card". The model keeps this.

**Choices in the code that the model keeps as written:**
- **`SmallestGapPlayer` heads.** It measures gaps against the heads of the rows that are not full (`take5.py:189`). That head need not be the one of the row the card will actually go to.
- **`SmallestGapPlayer` fallback.** When no card has such a head below it, it plays `hand[0]`, without regard to whether that card can be placed (`take5.py:190`).
- **The standings.** `round()` returns each player's running total of points (`take5.py:347`), not only the points scored in that round.

## Model

| member | source | states |
|---|---|---|
| `Lists.Min` | take5.py:164 | The result is an element of the non-empty list and is at most every element. |
| `Lists.Max` | take5.py:104 | The result is an element of the non-empty list and is at least every element. |
| `Lists.IndexOf` | take5.py:105 | The result is a position holding the value, and no earlier position holds it. |
| `Lists.MapOf` | take5.py:326 | The dict built from the pairs has exactly the listed keys, and every value it holds is one of the listed values. |
| `Lists.MapOfAppend` | take5.py:347 | Inserting one more pair updates the dict at that key only. |
| `Lists.MapOfLastWins` | take5.py:326 | A key occurring last at position i is bound to the i-th value: a later pair overrides an earlier one. |
| `Lists.RemoveFirst` | take5.py:202 | `remove(x)` yields a list one shorter whose multiset is the old one minus one x. Elements before the first x are kept in place and later ones shift down by one. |
| `Lists.Insert` | take5.py:328 | Inserting into an ascending list keeps it ascending and adds exactly that element to its multiset. |
| `Lists.Sort` | take5.py:328 | `sort()` yields an ascending permutation of the list. |
| `Lists.SortedUnique` | take5.py:328 | Two ascending lists with the same multiset are equal, so every correct sort gives `Sort`'s result. |
| `Lists.SortMembers` | take5.py:328 | Every element of the sorted list is an element of the input. |
| `Lists.Reverse` | take5.py:175 | Reversal puts the element at i at position n-1-i. |
| `Lists.ReverseMultiset` | take5.py:175 | Reversal keeps the multiset. |
| `Lists.SortDescending` | take5.py:175 | `sort(reverse=True)` keeps the length; `SortDescendingIsDescendingPermutation` proves it a descending permutation. |
| `Lists.SortDescendingIsDescendingPermutation` | take5.py:175 | `sort(reverse=True)` yields a descending permutation of the list. |
| `Lists.LastOfSortIsMax` | take5.py:182-183 | The last element of the ascending sort is the maximum. |
| `Lists.LastOfSortDescendingIsMin` | take5.py:175-176 | The last element of the descending sort is the minimum. |
| `Lists.FirstOfSortIsMin` | take5.py:175-176 | The first element of the ascending sort is the minimum. |
| `Lists.AscendingFirstIsMin` | take5.py:175-176 | The first element of any ascending permutation of a list is its minimum. |
| `Lists.DescendingUnique` | take5.py:175 | Two descending lists with the same multiset are equal, so every correct `sort(reverse=True)` gives `SortDescending`'s result. |
| `Lists.SortLessLast` | take5.py:182-183 | After `sort()` and `pop()` the hand left is ascending and holds the input less one copy of its maximum. |
| `Lists.SortDescendingLessLast` | take5.py:175-176 | After `sort(reverse=True)` and `pop()` the hand left is descending and holds the input less one copy of its minimum. |
| `Lists.MultisetLessOne` | take5.py:176 | Taking one copy of a held card out of a hand's multiset leaves a hand one card shorter. |
| `Cards.Points` | take5.py:10-20 | A card's points are always one of 1, 2, 3, 5, 7. |
| `Cards.PointsRule` | take5.py:10-20 | The priority-ordered lookup is the arithmetic rule, with both directions of each case. 7 exactly for 55; 5 exactly for the other multiples of 11 up to 99; 3 exactly for multiples of 10 up to 100; 2 exactly for the other multiples of 5 up to 95, 55 excluded; 1 for every other integer. |
| `Cards.MultiplesOf11` | take5.py:13 | The listed values (with 55) are exactly the multiples of 11 from 11 to 99. |
| `Cards.MultiplesOf10` | take5.py:15 | The listed values are exactly the multiples of 10 from 10 to 100. |
| `Cards.MultiplesOf5` | take5.py:17 | The listed values (with 55) are exactly the odd multiples of 5 up to 100. |
| `Cards.PointsExamples` | take5.py:11-18 | points(55)=7, points(11)=5, points(22)=5, points(10)=3, points(5)=2, points(7)=1. |
| `Rows.SumPoints` | take5.py:48-49 | A row's points lie between one and seven per card. |
| `Rows.AddKeepsInvariant` | take5.py:59-70 | A legal add keeps the row strictly ascending and within five cards, and makes the card the head. On a row that is not full it scores 0 and grows the row by one. On a full row it scores at least five points and leaves exactly `[card]`. |
| `Rows.LegalAddsKeepInvariant` | take5.py:59-70 | After any sequence of legal adds the row is strictly ascending with at most five cards, and its head is the last card added. |
| `Rows.LowCardFails` | take5.py:63-64 | In a sequence of adds, a first card not above the head makes the sequence fail. |
| `Rows.Row.constructor` | take5.py:25-26 | A new row is empty. |
| `Rows.Row.Length` | take5.py:31-33 | The number of cards, at most five on a valid row. |
| `Rows.Row.Empty` | take5.py:35-37 | A row is empty exactly when it holds no card. |
| `Rows.Row.Full` | take5.py:40-41 | On a valid row, `full` holds exactly when the row holds five cards. |
| `Rows.Row.Head` | take5.py:43-45 | The head is None exactly on an empty row. Otherwise it is the last card, and on a valid row it is the greatest card. |
| `Rows.Row.RowPoints` | take5.py:47-49 | A row's points lie between one and seven per card. |
| `Rows.Row.Clear` | take5.py:51-57 | Returns the points of the cards present before. The row then holds `[new_card]` when a non-zero card is given, else nothing. |
| `Rows.Row.AddCard` | take5.py:59-70 | Fails exactly when the row is non-empty and the card is not above the head, and then changes nothing. Otherwise it returns the points of a full row (0 otherwise) and the row becomes the old row plus the card, or `[card]` if it was full. A valid row stays valid with the card as head. |
| `Boards.Heads` | take5.py:99 | The heads list holds the last card of every row, in row order. |
| `Boards.MaxHeadBelow` | take5.py:101-104 | None exactly when no head is below the card. Otherwise it is a head below the card and at least every head below the card. |
| `Boards.Below` | take5.py:104 | The generator's elements are exactly the heads below the card. |
| `Boards.TargetRow` | take5.py:99-105 | None exactly when every head is at least the card. Otherwise it is a row whose head is below the card and is the greatest such head, and no earlier row has that head. |
| `Boards.FirstEmpty` | take5.py:96-98 | None exactly when no row is empty. Otherwise it is an empty row, and every earlier row is non-empty. |
| `Boards.Placement` | take5.py:95-106 | Where `play_card` sends a card is a row of the board, or none; `PlacementRule` proves it the first empty row, else the target row. |
| `Boards.PlacementRule` | take5.py:95-106 | A card goes to the first empty row if any, else to the target row. It has no place exactly when no row is empty and every head is at least the card. |
| `Boards.TargetRowUnique` | take5.py:103-105 | With distinct heads, a row whose head is the greatest below the card is the target row. |
| `Boards.TargetRowExample` | take5.py:99-105 | With heads 3, 17, 42, 90 the card 45 goes to the row headed by 42, and the card 2 has no row. |
| `Boards.Board.constructor` | take5.py:75-76 | A new board has four distinct, empty rows. |
| `Boards.Board.Clear` | take5.py:85-87 | Every row becomes empty. |
| `Boards.Board.PlayCard` | take5.py:89-106 | Without a place, it returns -1 and no row changes. Otherwise exactly the placement row changes, by a legal add, and the result is that add's score. The rows stay valid. |
| `Boards.Board.AddToRow` | take5.py:98 | Adding a fitting card to one row changes that row only and returns the add's score. |
| `Boards.Board.ClearRow` | take5.py:108-109 | The player receives the points of the taken row. That row then holds only the new card, and no other row changes. |
| `Players.RowPointsOf` | take5.py:163 | The list of row points holds every row's point sum, in row order. |
| `Players.ChooseRow` | take5.py:161-164 | A row index whose points are at most every row's points, with every earlier row worth strictly more (first occurrence). |
| `Players.ChooseRowTieGoesFirst` | take5.py:164 | When all rows are worth the same, row 0 is chosen. |
| `Players.OpenHeads` | take5.py:189 | The heads considered are exactly the heads of the rows that are not full. |
| `Players.GapScore` | take5.py:192-201 | The gap the smallest-gap scan compares, defined by recursion over the open heads. It has no contract of its own: `GapScoreIsLeastGap` proves it the least gap to an open head below the card, capped at the sentinel 1000. |
| `Players.GapScoreIsLeastGap` | take5.py:192-201 | The compared gap is at most the sentinel 1000 and at most every gap to an open head below the card. Below the sentinel it is one of those gaps. |
| `Players.GapScoreByMaxHead` | take5.py:194-198 | The gap computed through the greatest open head below the card equals the gap score, and with no such head the score is the sentinel. |
| `Players.SmallestGapPick` | take5.py:186-201 | The scan returns the first position of the hand with the least gap score. |
| `Players.SmallestGapChoiceMeaning` | take5.py:190-201 | If no card has an open head below it, `hand[0]` is chosen. Otherwise the chosen card has one, and its gap is the least such gap. Every earlier card with one has a strictly greater gap. |
| `Players.SmallestGapChoiceUnique` | take5.py:192-201 | The smallest-gap choice is determined by the hand and the heads. |
| `Players.GapSentinelInactive` | take5.py:191 | For deck cards, a card gets a gap below 1000 exactly when an open head is below it. |
| `Players.BestRowIsTargetRow` | take5.py:218-219 | A one-pass search for the first row with the greatest head below the card agrees with `max` followed by `index`. |
| `Players.BestRowIsFirstGreatest` | take5.py:218-219 | The one-pass search finds no row exactly when no head is below the card. Otherwise its row has the greatest head below the card, and no earlier row has that head. |
| `Players.ShortestRowPick` | take5.py:205-227 | The scan returns the first position of the hand with the lexicographically least (length, gap) score. |
| `Players.RowScore` | take5.py:213-225 | The (length, gap) key the shortest-row scan compares is never worse than the sentinels (6, 105). `RowScoreByTarget` proves it the target row's (length, gap) below the sentinels. |
| `Players.RowScoreByTarget` | take5.py:215-221 | The score computed through the target row is that row's (length, gap), or the sentinels (6, 105) when there is no target row. |
| `Players.ShortestRowFallback` | take5.py:210-216 | If no card has a target row, `hand[0]` is chosen. If some card has one, so does the chosen card. |
| `Players.ShortestRowChoiceMeaning` | take5.py:213-225 | The chosen card's target row has the least (length, gap) among the cards with a target row. Earlier such cards are strictly worse. |
| `Players.ShortestRowChoiceUnique` | take5.py:213-225 | The shortest-row choice is determined by the hand and the rows. |
| `Players.LengthSentinelInactive` | take5.py:211-212 | On rows of at most five cards, a card scores below the sentinels exactly when it has a target row. |
| `Players.Player.constructor` | take5.py:112-114 | A new player has the given id and zero points. |
| `Players.Player.ReceiveHand` | take5.py:116-117 | The hand becomes the one dealt. |
| `Players.Player.AddPoints` | take5.py:119-120 | The points grow by the amount given. |
| `Players.Player.ClearPoints` | take5.py:122-123 | The points become zero. |
| `Players.Player.ChooseCard` | take5.py:172-227 | Exactly one card leaves the hand: the card is in the old hand, and the new hand is one shorter with that card removed from the multiset. Ascending plays the minimum and keeps the hand sorted high to low minus its last card. Descending plays the maximum and keeps the hand sorted low to high minus its last card. The two scanning strategies play their scan's choice and remove its first occurrence. |
| `Players.SortingStrategyRest` | take5.py:172-184 | For the two sorting strategies, following the strategy holds exactly when the card is the minimum (maximum) and the hand left is the hand sorted high to low (low to high) less its last card. |
| `Players.FollowsStrategy` | take5.py:172-227 | What every modelled `choose_card` does: under each strategy the card is one the hand held, and the hand left is one card shorter and holds the old hand less that card. Ascending plays the minimum, Descending the maximum, and the scans their pick. |
| `Players.Player.Pop` | take5.py:176 | `pop()` returns the last card and removes exactly it. |
| `Game.FullDeck` | take5.py:302 | The unshuffled deck holds the card i+1 at position i, 104 cards in all. |
| `Game.ShuffledDeckFacts` | take5.py:302-303 | A shuffled deck has 104 distinct cards, each between 1 and 104. |
| `Game.StrictlyAscendingOnce` | take5.py:302 | A strictly ascending list holds every value at most once. |
| `Game.DealtHand` | take5.py:305 | Every dealt hand has ten cards. |
| `Game.StartRows` | take5.py:307-308 | After dealing n hands, row j holds just the j-th card popped from what is left of the deck. Every row starts with one card. |
| `Game.StartRowsAfterCut` | take5.py:305-308 | Popping the row cards from the cut deck gives the cards just below all the hands of the full deck. |
| `Game.DealFits` | take5.py:293-294 | With at most ten players, the deck covers every hand and the four row cards. Every hand holds deck cards, and the starting rows are valid single-card rows. |
| `Game.DealtHandsDisjoint` | take5.py:304-306 | No card is dealt to two players. |
| `Game.StartersNotDealt` | take5.py:304-308 | No row's starting card is in any player's hand. |
| `Game.Starters` | take5.py:307-308 | The four starting cards, one per row, are the single cards of the starting rows. |
| `Game.DealtCardsAreTop` | take5.py:304-306 | All the hands together are exactly the top ten cards per player of the deck. |
| `Game.DealConservesCards` | take5.py:302-308 | The deck left after the deal, the four starting cards and all the hands together are, as a multiset, the full deck of 1 to 104: no card is lost or duplicated. |
| `Game.DealtCardsDistinct` | take5.py:302-308 | No hand holds a card twice, and the four starting cards are pairwise distinct. |
| `Game.Resolve` | take5.py:332-340 | Resolving a card keeps the number of rows, and the player never receives negative points. |
| `Game.Destination` | take5.py:332-337 | The row a card ends up in is a row of the board: its placement, or the row `choose_row` picks when it has none. |
| `Game.ResolveAll` | take5.py:329-341 | Resolving the cards in order keeps the number of rows. `ResolveAllKeepsRows` proves the board stays in play. |
| `Game.ResolveKeepsRows` | take5.py:329-340 | Resolving a card keeps every row non-empty, strictly ascending and within five cards. |
| `Game.ResolveChangesOneRow` | take5.py:332-340 | A resolved card becomes the head of exactly one row, the other rows are unchanged, and it costs at most 35 points. |
| `Game.ResolveTakesOrAppends` | take5.py:332-337 | The player takes the destination row exactly when it was full or the card was below every head. The row is then `[card]` and the player receives its points. Otherwise the card is appended and scores nothing. |
| `Game.LowCardTakesCheapestRow` | take5.py:333-337 | A card below every head goes to the row `choose_row` selects, and costs no more than any row would. |
| `Game.ResolveAllKeepsRows` | take5.py:329-341 | Any sequence of non-zero cards keeps the board in play. |
| `Game.GainStep` | take5.py:329-340 | Resolving one more card adds to each player's gain that card's points if the dict names them for it, and nothing otherwise. |
| `Game.Gain` | take5.py:330-340 | A player's gain over the resolved cards, the points of each card the card-to-player dict names them for, is never negative. |
| `Game.GainUnnamed` | take5.py:330 | A player the card-to-player dict names for no card gains nothing. |
| `Game.GainsAddUp` | take5.py:329-340 | When every card is named for one of a list of distinct players, their gains add up to all the points the cards cost. |
| `Game.TurnGainsAddUp` | take5.py:324-340 | In a turn, the players' gains add up to all the points the sorted played cards cost: every point goes to somebody. |
| `Game.ChosenInDeck` | take5.py:325 | A card taken out of a hand of deck cards is a deck card, and so are the cards left. |
| `Game.SortedInDeck` | take5.py:328 | Sorting deck cards gives deck cards taken from the input. |
| `Game.ScoresOf` | take5.py:347 | The list of scores holds every player's points in order. |
| `Game.PlayedMeaning` | take5.py:324-325 | In a played turn every player played a card out of their own hand and kept deck cards. |
| `Game.MeaningPlayed` | take5.py:324-325 | Conversely, player-by-player choices make a played turn. |
| `Game.PlayedShrinks` | take5.py:324-325 | After a turn every hand is exactly one card shorter. |
| `Game.PlayedInDeck` | take5.py:324-325 | The cards played out of hands of deck cards are deck cards. |
| `Game.PlayedStep` | take5.py:324-325 | One more player taking a card out of their hand extends a played turn. |
| `Game.StrategicMeaning` | take5.py:324-325 | In a strategic turn player k's hand was non-empty, and their card and the hand left are what their strategy makes of their hand and the board. |
| `Game.StrategicAll` | take5.py:324-325 | The same, for every player at once. |
| `Game.StrategicStep` | take5.py:324-325 | One more player following their strategy extends a strategic turn. |
| `Game.SortCards` | take5.py:327-328 | The played cards are sorted into an ascending permutation of them. |
| `Game.Take5.constructor` | take5.py:290-295 | The game holds the given players and a freshly allocated, valid board of four empty rows. |
| `Game.NewGame` | take5.py:290-295 | Construction fails exactly when there are more than ten players. Otherwise the game holds the given players and a fresh board of fresh, empty rows. |
| `Game.NewGameRound` | take5.py:364-367 | Constructing a game and playing one round on a shuffled deck: too many players are refused, and otherwise the standings hold exactly the players' ids. |
| `Game.Take5.Deal` | take5.py:300-308 | Every player i receives the ten cards at the end of the deck below those of the earlier players. Every row receives one of the next four cards, in pop order, and the rows are in play. Points do not change. |
| `Game.Take5.DealHands` | take5.py:304-306 | The hands are dealt from the end of the deck, and the deck is cut by ten cards per player. |
| `Game.Take5.StartRowsFrom` | take5.py:307-308 | Each row in turn receives the card popped from the deck. |
| `Game.Take5.StartRow` | take5.py:308 | Row j receives the j-th card popped, and no other row changes. |
| `Game.Take5.ResolveCard` | take5.py:330-340 | One card is resolved: the board becomes `Resolve`'s rows and only that player's points grow, by `Resolve`'s points. |
| `Game.Take5.PlaceOnBoard` | take5.py:332-337 | `play_card`, and on -1 `choose_row` and `clear_row`, give `Resolve`'s rows and points. |
| `Game.Take5.Turn` | take5.py:323-341 | Every player plays the card their strategy picks from their own hand, looking at the board before the turn, and keeps what it leaves. The board becomes the resolution of the played cards in ascending order. Each player's points grow by exactly their gain: the points of the cards the card-to-player dict names them for. So nobody's points go down. |
| `Game.Take5.ChooseCards` | take5.py:323-325 | The player loop: every player in order plays the card their strategy picks from their own hand, every hand becomes what the strategy leaves, and the cards are deck cards. |
| `Game.Take5.ChooseNext` | take5.py:324-325 | One iteration of that loop: the next player's strategic choice extends the turn so far. The players up to it then hold what their choices left, and the later players still hold their hands. |
| `Game.Take5.PlayerChooses` | take5.py:325 | One player's `choose_card` takes a deck card out of their hand: the card their strategy picks, leaving what the strategy leaves. |
| `Game.Take5.CardPlayers` | take5.py:326 | The card-to-player dict binds every played card to one of the players. |
| `Game.Take5.ResolvePlayed` | take5.py:326-341 | The sorted cards are resolved lowest first, the board then being `ResolveAll` of them. Each player's points grow by exactly their gain under the dict built from the played cards. |
| `Game.Take5.ResolveCards` | take5.py:329-341 | The resolution loop turns the board into `ResolveAll` of the sorted cards and keeps it in play. Each player's points grow by exactly their gain, so nobody's points go down. |
| `Game.Take5.ResolveNext` | take5.py:329-340 | One iteration resolves the next sorted card. The player the dict names for it gains exactly `Resolve`'s points, every other player keeps their points, and the gains so far extend by that card. |
| `Game.Take5.PlayTurns` | take5.py:318-341 | After ten turns every hand is empty, the board is still in play, and nobody's points went down. |
| `Game.Take5.DealAndPlay` | take5.py:314-341 | The deal followed by the turns: every hand then is empty, the board is in play, and nobody's points went down. |
| `Game.Take5.Standings` | take5.py:347 | The result is the dict from player ids to points built in player order. |
| `Game.Take5.Round` | take5.py:314-347 | A round deals the deck and plays ten turns. Every hand is then empty and the board is in play. Nobody's points went down, and the result maps ids to points. |

## Left out

- `ManualPlayer` is left out: it reads from the console.
- `RandomPlayer` is left out: it draws random numbers.
- `CostFunPlayer` is left out: its cost is floating-point, with `exp`.
- `CheatingBastard` is left out: it plays a card it does not hold and clears row 0 behind the engine's back.
- The four modelled strategies are one `Player` class with a `Strategy` field, rather than subclasses: Dafny traits are not used here. They all share `choose_row`.
- `shuffle` is not modelled. `Deal` and `Round` take the shuffled deck as a parameter, required to be a permutation of 1 to 104.
- The following output and driver code is not part of this model:
  - `print`;
  - `Take5.print` and the `quiet` flag;
  - the quiet-with-manual-players check in the constructor;
  - `__repr__` and `__iter__`;
  - the `__main__` statistics loop.
- `Take5.num_players` is not kept as a field; it is always `|players|`.
- `Boards.Board.ClearRow`: requires an index in 0..3. Python would also accept negative indices and raise `IndexError` above 3. Its only caller passes a `choose_row` result, which is always in range.
- `Players.Player.ChooseCard`: the two scanning strategies require every row to be non-empty. On an empty row Python fails when comparing `None` with a card. They are only called after the deal, when no row is empty.
- `Game.Take5.constructor`: requires distinct player objects. Python would let one player play twice per turn, only the second card would be resolved, and the hand would run out within the round.
- `card_players` is rebuilt from `played_cards` after every player at `take5.py:326`. Only its final value is read, so the model builds it once after the player loop.
- `Game.Take5.Round`: does not carry hand disjointness across the turns, so it does not prove that the cards played in a turn are distinct. The deal's disjointness is proved separately (`DealtHandsDisjoint`, `StartersNotDealt`). Each card is resolved on behalf of the player the card-to-player dict names, which for a repeated value is the last player who played it (`MapOfLastWins`).
- `Game.Take5.Round`: states that nobody's points go down. The exact gain of each player and each player's strategic choice are stated per turn by `Turn`, but not carried across the ten turns as one formula.
- `Game.Take5.PlayTurns`: like `Round`, keeps across the turns only that hands shrink to empty, the board stays in play and nobody's points go down. Each turn's exact gains and strategic choices are stated by `Turn`.
- `Game.Take5.DealAndPlay`: states the same as `PlayTurns` after the deal, for the same reason.
- Python integers are unbounded, like Dafny's, so no overflow is modelled. `Card` is a plain `int`.
