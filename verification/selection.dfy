/**
 * The arrow-key handlers' updates of the selected card index. The cards are
 * laid out in rows of `cols` cards; `count` is the number of cards shown.
 * Each update moves the selection by a row (`cols`) or by one card, or keeps
 * it when the move would leave the cards. The scrolling done alongside is
 * not part of this model.
 */
module Selection {

  /** ArrowUp: one row up, unless that goes before the first card. */
  function Up(selected: int, cols: int): int
  {
    var next := selected - cols;
    if next < 0 then selected else next
  }

  /** ArrowDown: one row down, unless that goes past the last card. */
  function Down(selected: int, cols: int, count: int): int
  {
    var next := selected + cols;
    if next >= count then selected else next
  }

  /** ArrowRight: the next card, unless the selection is on the last one. */
  function Right(selected: int, count: int): int
  {
    var next := selected + 1;
    if next >= count then selected else next
  }

  /** ArrowLeft: the previous card, unless the selection is on the first one. */
  function Left(selected: int): int
  {
    var next := selected - 1;
    if next < 0 then selected else next
  }

  predicate InRange(selected: int, count: int)
  {
    0 <= selected < count
  }

  /** Each step moves by exactly a row or a card in its direction, or not at
      all, and it moves exactly when the target is a card. */
  lemma StepsMoveOrStay(selected: int, cols: int, count: int)
    requires InRange(selected, count) && cols > 0
    ensures Up(selected, cols) == selected - cols <==> InRange(selected - cols, count)
    ensures Up(selected, cols) != selected - cols ==> Up(selected, cols) == selected
    ensures Down(selected, cols, count) == selected + cols <==> InRange(selected + cols, count)
    ensures Down(selected, cols, count) != selected + cols ==> Down(selected, cols, count) == selected
    ensures Right(selected, count) == selected + 1 <==> InRange(selected + 1, count)
    ensures Right(selected, count) != selected + 1 ==> Right(selected, count) == selected
    ensures Left(selected) == selected - 1 <==> InRange(selected - 1, count)
    ensures Left(selected) != selected - 1 ==> Left(selected) == selected
  {
  }

  /** A selection among the cards stays among the cards, for any row width
      that is not negative. */
  lemma StepsStayInRange(selected: int, cols: int, count: int)
    requires InRange(selected, count) && cols >= 0
    ensures InRange(Up(selected, cols), count)
    ensures InRange(Down(selected, cols, count), count)
    ensures InRange(Right(selected, count), count)
    ensures InRange(Left(selected), count)
  {
  }

  /** Going down a row and back up, or right and back left, returns to the
      same card whenever the first step moved. */
  lemma StepsUndo(selected: int, cols: int, count: int)
    requires InRange(selected, count) && cols > 0
    ensures Down(selected, cols, count) != selected ==> Up(Down(selected, cols, count), cols) == selected
    ensures Right(selected, count) != selected ==> Left(Right(selected, count)) == selected
    ensures Up(selected, cols) != selected ==> Down(Up(selected, cols), cols, count) == selected
    ensures Left(selected) != selected ==> Right(Left(selected), count) == selected
  {
  }

  /** A negative row width (a tile narrower than its padding) lets ArrowUp
      leave the cards: from the only card, it selects index 1. */
  lemma UpWithNegativeCols()
    ensures InRange(0, 1) && !InRange(Up(0, -1), 1)
  {
  }
}
