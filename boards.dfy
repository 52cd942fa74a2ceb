/** The board: four rows, and the placement rule that sends a played card
    to the row whose head is the greatest one below it. */
module Boards {
  import opened Lists
  import opened Rows

  const RowCount := 4

  /** Every row holds at least one card, as during play after the deal. */
  predicate AllNonEmpty(rows: seq<seq<int>>) {
    forall i :: 0 <= i < |rows| ==> rows[i] != []
  }

  /** The head of each row. */
  function Heads(rows: seq<seq<int>>): (heads: seq<int>)
    requires AllNonEmpty(rows)
    ensures |heads| == |rows|
    ensures forall i :: 0 <= i < |rows| ==> heads[i] == Last(rows[i])
  {
    seq(|rows|, i requires 0 <= i < |rows| => Last(rows[i]))
  }

  /** The greatest head below the card, or None when no head is below it. */
  function MaxHeadBelow(heads: seq<int>, card: int): (r: Option<int>)
    ensures r.None? <==> forall i :: 0 <= i < |heads| ==> card <= heads[i]
    ensures r.Some? ==> r.value in heads && r.value < card
    ensures r.Some? ==> forall i :: 0 <= i < |heads| && heads[i] < card ==> heads[i] <= r.value
  {
    var below := Below(heads, card);
    assert forall i :: 0 <= i < |heads| && heads[i] < card ==> heads[i] in below;
    if below == [] then None else Some(Max(below))
  }

  /** The heads below the card, in row order. */
  function Below(heads: seq<int>, card: int): (r: seq<int>)
    ensures forall x :: x in r <==> x in heads && x < card
  {
    if heads == [] then []
    else if heads[0] < card then [heads[0]] + Below(heads[1..], card)
    else Below(heads[1..], card)
  }

  /** The row the card goes to when no row is empty: the first row holding
      the greatest head below the card, or None when every head is at least
      the card. */
  function TargetRow(rows: seq<seq<int>>, card: int): (r: Option<nat>)
    requires AllNonEmpty(rows)
    ensures r.None? <==> forall i :: 0 <= i < |rows| ==> card <= Last(rows[i])
    ensures r.Some? ==> r.value < |rows| && Last(rows[r.value]) < card
    ensures r.Some? ==> forall i :: 0 <= i < |rows| && Last(rows[i]) < card ==> Last(rows[i]) <= Last(rows[r.value])
    ensures r.Some? ==> forall i :: 0 <= i < r.value ==> Last(rows[i]) != Last(rows[r.value])
  {
    var heads := Heads(rows);
    match MaxHeadBelow(heads, card)
    case None => None
    case Some(h) => Some(IndexOf(heads, h))
  }

  /** The first empty row, or None. */
  function FirstEmpty(rows: seq<seq<int>>): (r: Option<nat>)
    ensures r.None? <==> AllNonEmpty(rows)
    ensures r.Some? ==> r.value < |rows| && rows[r.value] == []
    ensures r.Some? ==> forall i :: 0 <= i < r.value ==> rows[i] != []
  {
    if rows == [] then None
    else if rows[0] == [] then Some(0)
    else match FirstEmpty(rows[1..])
      case None => None
      case Some(k) => Some(k + 1)
  }

  /** Where `play_card` sends a card: the first empty row, else the target
      row; None when the player must choose a row to take. */
  function Placement(rows: seq<seq<int>>, card: int): (r: Option<nat>)
    ensures r.Some? ==> r.value < |rows|
  {
    match FirstEmpty(rows)
    case Some(i) => Some(i)
    case None => TargetRow(rows, card)
  }

  /** The placement rule: a card goes to the first empty row if there is
      one; otherwise to the first row holding the greatest head below it;
      it has no place exactly when no row is empty and every head is at
      least the card. */
  lemma PlacementRule(rows: seq<seq<int>>, card: int)
    ensures FirstEmpty(rows).Some? ==> Placement(rows, card) == FirstEmpty(rows)
    ensures FirstEmpty(rows).None? ==> AllNonEmpty(rows) && Placement(rows, card) == TargetRow(rows, card)
    ensures Placement(rows, card).None? <==>
      AllNonEmpty(rows) && forall i :: 0 <= i < |rows| ==> card <= Last(rows[i])
  {
  }

  /** Heads are distinct card values in play, so the greatest head below a
      card is held by exactly one row. */
  lemma TargetRowUnique(rows: seq<seq<int>>, card: int, j: nat)
    requires AllNonEmpty(rows)
    requires forall i, k :: 0 <= i < k < |rows| ==> Last(rows[i]) != Last(rows[k])
    requires j < |rows| && Last(rows[j]) < card
    requires forall i :: 0 <= i < |rows| && Last(rows[i]) < card ==> Last(rows[i]) <= Last(rows[j])
    ensures TargetRow(rows, card) == Some(j)
  {
  }

  /** With heads 3, 17, 42 and 90, the card 45 goes to the row headed by 42,
      and the card 2 finds no row. */
  lemma TargetRowExample()
    ensures TargetRow([[3], [17], [42], [90]], 45) == Some(2)
    ensures TargetRow([[3], [17], [42], [90]], 2) == None
  {
    var rows := [[3], [17], [42], [90]];
    assert Last(rows[0]) == 3 && Last(rows[1]) == 17 && Last(rows[2]) == 42 && Last(rows[3]) == 90;
    TargetRowUnique(rows, 45, 2);
  }

  class Board {
    const rows: seq<Row>

    ghost predicate Valid()
      reads this, rows
    {
      && |rows| == RowCount
      && (forall i, j :: 0 <= i < j < |rows| ==> rows[i] != rows[j])
      && (forall i :: 0 <= i < |rows| ==> rows[i].Valid())
    }

    /** The cards of every row, in row order. */
    function Cards(): (c: seq<seq<int>>)
      requires |rows| == RowCount
      reads this, rows
      ensures |c| == |rows|
      ensures forall i :: 0 <= i < |rows| ==> c[i] == rows[i].cards
    {
      [rows[0].cards, rows[1].cards, rows[2].cards, rows[3].cards]
    }

    constructor ()
      ensures Valid() && fresh(rows)
      ensures Cards() == [[], [], [], []]
    {
      var r0 := new Row();
      var r1 := new Row();
      var r2 := new Row();
      var r3 := new Row();
      rows := [r0, r1, r2, r3];
    }

    /** `clear()`: empties every row. */
    method Clear()
      requires Valid()
      modifies rows
      ensures Valid()
      ensures Cards() == [[], [], [], []]
    {
      for i := 0 to |rows|
        invariant Valid()
        invariant forall k :: 0 <= k < i ==> rows[k].cards == []
      {
        var _ := rows[i].Clear(None);
      }
    }

    /** `play_card(card)`: a card goes to the first empty row if there is
        one; otherwise to the target row, the first holding the greatest
        head below the card; if no head is below it, the result is -1 and
        the board is unchanged. Other rows never change. The result is
        otherwise the points scored by taking a full row (0 if not full). */
    method PlayCard(card: int) returns (r: int)
      requires Valid()
      modifies rows
      ensures Valid()
      ensures r >= -1
      ensures Placement(old(Cards()), card).None? ==> r == -1 && Cards() == old(Cards())
      ensures Placement(old(Cards()), card).Some? ==>
        var i := Placement(old(Cards()), card).value;
        r == AddScore(old(Cards())[i]) && Cards() == old(Cards())[i := AfterAdd(old(Cards())[i], card)]
    {
      ghost var before := Cards();
      var i := 0;
      while i < |rows| && !rows[i].Empty()
        invariant 0 <= i <= |rows|
        invariant forall k :: 0 <= k < i ==> rows[k].cards != []
      {
        i := i + 1;
      }
      if i < |rows| {
        assert Placement(before, card) == Some(i);
        r := AddToRow(i, card);
        return;
      }
      var current := Cards();
      assert AllNonEmpty(current);
      var target := TargetRow(current, card);
      assert Placement(before, card) == target;
      if target.None? {
        return -1;
      }
      r := AddToRow(target.value, card);
    }

    /** Adds a card that fits to one row, through the row's `add_card`. */
    method AddToRow(i: nat, card: int) returns (r: int)
      requires Valid()
      requires i < RowCount && CanAdd(Cards()[i], card)
      modifies rows
      ensures Valid()
      ensures r == AddScore(old(Cards())[i]) && r >= 0
      ensures Cards() == old(Cards())[i := AfterAdd(old(Cards())[i], card)]
    {
      ghost var before := Cards();
      AddKeepsInvariant(before[i], card);
      var res := rows[i].AddCard(card);
      r := res.points;
      assert Cards() == before[i := AfterAdd(before[i], card)];
    }

    /** `clear_row(row_index, new_card)`: the player takes the row, receiving
        its points, and the row then holds only the new card (nothing if
        the card is 0). Other rows never change. */
    method ClearRow(index: nat, newCard: int) returns (pts: int)
      requires Valid()
      requires index < RowCount
      modifies rows
      ensures Valid()
      ensures pts == SumPoints(old(Cards())[index]) && pts >= 0
      ensures Cards() == old(Cards())[index := if newCard != 0 then [newCard] else []]
    {
      ghost var before := Cards();
      pts := rows[index].Clear(Some(newCard));
      assert Cards() == before[index := if newCard != 0 then [newCard] else []];
    }
  }
}
