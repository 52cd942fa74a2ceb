/** A row of the board: a strictly ascending list of at most CardLimit cards.
    Adding a card to a full row takes the row (its points go to the player)
    and restarts it with the new card. */
module Rows {
  import opened Lists
  import opened Cards

  const CardLimit := 5

  /** The penalty points of a list of cards: the sum of their points. */
  function SumPoints(cards: seq<int>): (total: int)
    ensures |cards| <= total <= 7 * |cards|
  {
    if cards == [] then 0 else SumPoints(cards[..|cards| - 1]) + Points(Last(cards))
  }

  /** What a row's cards are: strictly ascending and never more than the limit. */
  ghost predicate RowInvariant(cards: seq<int>) {
    StrictlyAscending(cards) && |cards| <= CardLimit
  }

  /** A card may go onto a row that is empty or whose head is lower. */
  predicate CanAdd(cards: seq<int>, card: int) {
    cards == [] || Last(cards) < card
  }

  /** The cards of a row after a legal add: a full row restarts with the card. */
  function AfterAdd(cards: seq<int>, card: int): seq<int> {
    if |cards| >= CardLimit then [card] else cards + [card]
  }

  /** The points a legal add scores: those of a full row, else none. */
  function AddScore(cards: seq<int>): int {
    if |cards| >= CardLimit then SumPoints(cards) else 0
  }

  /** The outcome of `add_card`: the points scored, or the card-too-low error. */
  datatype AddResult = Scored(points: int) | CardTooLow

  /** A legal add keeps the row invariant, makes the card the head, and
      scores nothing unless the row was full, when it scores at least one
      point per card taken. */
  lemma AddKeepsInvariant(cards: seq<int>, card: int)
    requires RowInvariant(cards) && CanAdd(cards, card)
    ensures RowInvariant(AfterAdd(cards, card))
    ensures Last(AfterAdd(cards, card)) == card
    ensures |cards| < CardLimit ==> AddScore(cards) == 0 && |AfterAdd(cards, card)| == |cards| + 1
    ensures |cards| == CardLimit ==> AddScore(cards) >= CardLimit && AfterAdd(cards, card) == [card]
  {
  }

  /** The row after a list of adds, or None once one of them is too low. */
  ghost function AddAll(cards: seq<int>, plays: seq<int>): Option<seq<int>>
    decreases |plays|
  {
    if plays == [] then Some(cards)
    else if !CanAdd(cards, plays[0]) then None
    else AddAll(AfterAdd(cards, plays[0]), plays[1..])
  }

  /** After any sequence of legal adds the row is still strictly ascending
      and within the limit, and its head is the last card added. */
  lemma {:induction false} LegalAddsKeepInvariant(cards: seq<int>, plays: seq<int>)
    requires RowInvariant(cards)
    requires AddAll(cards, plays).Some?
    ensures RowInvariant(AddAll(cards, plays).value)
    ensures |AddAll(cards, plays).value| <= CardLimit
    ensures plays != [] ==> AddAll(cards, plays).value != [] && Last(AddAll(cards, plays).value) == Last(plays)
    decreases |plays|
  {
    if plays != [] {
      AddKeepsInvariant(cards, plays[0]);
      LegalAddsKeepInvariant(AfterAdd(cards, plays[0]), plays[1..]);
      if |plays| > 1 {
        assert Last(plays[1..]) == Last(plays);
      }
    }
  }

  /** Adding a card that is not above the head fails, whatever the row holds
      before or after it in the sequence of adds. */
  lemma {:induction false} LowCardFails(cards: seq<int>, plays: seq<int>)
    requires cards != [] && plays != [] && plays[0] <= Last(cards)
    ensures AddAll(cards, plays) == None
  {
  }

  class Row {
    var cards: seq<int>

    ghost predicate Valid()
      reads this
    {
      RowInvariant(cards)
    }

    constructor ()
      ensures cards == [] && Valid()
    {
      cards := [];
    }

    /** The number of cards; at most the limit on a valid row. */
    function Length(): (n: nat)
      reads this
      ensures Valid() ==> n <= CardLimit
    {
      |cards|
    }

    /** Empty exactly when the row holds no card. */
    predicate Empty()
      reads this
      ensures Empty() <==> cards == []
    {
      Length() == 0
    }

    /** Full when the row holds the limit or more; under the invariant
        exactly the limit. */
    predicate Full()
      reads this
      ensures Valid() ==> (Full() <==> |cards| == CardLimit)
    {
      Length() >= CardLimit
    }

    /** The most recently added card, which under the invariant is the
        greatest one; None on an empty row. */
    function Head(): (h: Option<int>)
      reads this
      ensures h.None? <==> cards == []
      ensures h.Some? ==> h.value == cards[|cards| - 1]
      ensures h.Some? && Valid() ==> forall i :: 0 <= i < |cards| ==> cards[i] <= h.value
    {
      if Empty() then None else Some(cards[|cards| - 1])
    }

    /** The points the row would give to whoever takes it. */
    function RowPoints(): (p: int)
      reads this
      ensures |cards| <= p <= 7 * |cards|
    {
      SumPoints(cards)
    }

    /** `clear(new_card)`: returns the points of the cards present and leaves
        the row holding only `newCard`, or nothing when no card is given.
        A card of value 0 counts as no card, as in the truth test it models. */
    method Clear(newCard: Option<int>) returns (pts: int)
      modifies this
      ensures pts == SumPoints(old(cards))
      ensures cards == if newCard.Some? && newCard.value != 0 then [newCard.value] else []
      ensures Valid()
    {
      pts := RowPoints();
      if newCard.Some? && newCard.value != 0 {
        cards := [newCard.value];
      } else {
        cards := [];
      }
    }

    /** `add_card(card)`: fails with CardTooLow, changing nothing, when the
        row is non-empty and the card is not above the head; otherwise
        takes a full row first (scoring its points) and appends the card. */
    method AddCard(card: int) returns (r: AddResult)
      modifies this
      ensures r.CardTooLow? <==> !CanAdd(old(cards), card)
      ensures r.CardTooLow? ==> cards == old(cards)
      ensures r.Scored? ==> r.points == AddScore(old(cards)) && cards == AfterAdd(old(cards), card)
      ensures r.Scored? && old(Valid()) ==> Valid() && Head() == Some(card)
    {
      if !Empty() && card <= cards[|cards| - 1] {
        return CardTooLow;
      }
      var pts;
      if Full() {
        pts := Clear(None);
      } else {
        pts := 0;
      }
      cards := cards + [card];
      r := Scored(pts);
    }
  }
}
