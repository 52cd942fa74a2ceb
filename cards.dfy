/** Cards are plain integers; each has a fixed number of penalty points. */
module Cards {

  /** The deck holds the cards 1 to DeckSize. */
  const DeckSize := 104

  /** The penalty points of a card, by the priority-ordered lookup of the
      game: 55 first, then the listed multiples of 11, then the listed
      multiples of 10, then the listed multiples of 5. */
  function Points(card: int): (p: int)
    ensures p in {1, 2, 3, 5, 7}
  {
    if card == 55 then 7
    else if card in [11, 22, 33, 44, 66, 77, 88, 99] then 5
    else if card in [10, 20, 30, 40, 50, 60, 70, 80, 90, 100] then 3
    else if card in [5, 15, 25, 35, 45, 65, 75, 85, 95] then 2
    else 1
  }

  /** The lookup agrees with the arithmetic rule it encodes: 7 for 55, 5 for
      the other multiples of 11 up to 99, 3 for multiples of 10 up to 100,
      2 for the remaining multiples of 5 up to 95, and 1 for every other
      integer. */
  lemma PointsRule(card: int)
    ensures Points(card) == 7 <==> card == 55
    ensures Points(card) == 5 <==> 11 <= card <= 99 && card % 11 == 0 && card != 55
    ensures Points(card) == 3 <==> 10 <= card <= 100 && card % 10 == 0
    ensures Points(card) == 2 <==> 5 <= card <= 95 && card % 5 == 0 && card % 10 != 0 && card != 55
    ensures Points(card) == 1 <==>
      !(card == 55 || (11 <= card <= 99 && card % 11 == 0) || (5 <= card <= 100 && card % 5 == 0))
  {
    MultiplesOf11(card);
    MultiplesOf10(card);
    MultiplesOf5(card);
  }

  lemma MultiplesOf11(card: int)
    ensures 11 <= card <= 99 && card % 11 == 0 <==> card in [11, 22, 33, 44, 55, 66, 77, 88, 99]
  {
    if 11 <= card <= 99 && card % 11 == 0 {
      var q := card / 11;
      assert card == 11 * q && 1 <= q <= 9;
    }
  }

  lemma MultiplesOf10(card: int)
    ensures 10 <= card <= 100 && card % 10 == 0 <==> card in [10, 20, 30, 40, 50, 60, 70, 80, 90, 100]
  {
    if 10 <= card <= 100 && card % 10 == 0 {
      var q := card / 10;
      assert card == 10 * q && 1 <= q <= 10;
    }
  }

  lemma MultiplesOf5(card: int)
    ensures 5 <= card <= 100 && card % 5 == 0 && card % 10 != 0 <==> card in [5, 15, 25, 35, 45, 55, 65, 75, 85, 95]
  {
    if 5 <= card <= 100 && card % 5 == 0 && card % 10 != 0 {
      var q := card / 10;
      assert card == 10 * q + 5 && 0 <= q <= 9;
    }
  }

  /** One card for each of the five point values that Points can give. */
  lemma PointsExamples()
    ensures Points(55) == 7 && Points(11) == 5 && Points(22) == 5
    ensures Points(10) == 3 && Points(5) == 2 && Points(7) == 1
  {
    PointsRule(11);
    PointsRule(22);
    PointsRule(10);
    PointsRule(5);
    PointsRule(7);
  }
}
