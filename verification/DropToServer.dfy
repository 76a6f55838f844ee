/** From the pointer to the table: the order a drop shows is the order the server stores. */
module DropToServer {
  import opened Wrappers
  import opened BoardOrder
  import opened Board
  import Reorder

  /** `rows` are the server's rows of the column the card was dropped in, after the transition that a move
      to another status makes first. If the page's list of the other cards there is up to date, the order
      shown while the request is on its way is the one that the next read of the board will show. */
  lemma DroppedOrderIsStored(board: BoardData, home: Columns, origin: StatusId, i0: nat, card: Card,
                             cols: Columns, s: StatusId, i: nat, over: string, extras: Option<Option<string>>,
                             rows: Reorder.Rows, number: map<Reorder.Id, nat>)
    requires DragFrom(board, home, origin, i0, card) && Placed(home, card, cols, s, i) && !("col:" <= card.id)
    requires Reorder.Numbers(rows, number) && card.id in rows
    ensures var out := DragEnd(cols, board, Some(origin), card.id, Some(over), extras);
            out.Sent? && Reorder.InOrder(rows, Ids(Without(home, card.id, s))) ==>
              && s in out.shown.at
              && Reorder.InOrder(Reorder.Reordered(rows, number, card.id, out.request.place), Ids(out.shown.at[s]))
  {
    var out := DragEnd(cols, board, Some(origin), card.id, Some(over), extras);
    DragIsFromHome(board, home, origin, i0, card);
    var j := SentShowsTheLanding(board, home, origin, card, cols, s, i, over, extras);
    if !out.Sent? || !Reorder.InOrder(rows, Ids(Without(home, card.id, s))) { return; }
    var rest, there := Without(home, card.id, s), card.(status := s);
    var ordered := Ids(out.shown.at[s]);
    WithoutIsColumn(home, card.id, s);
    IdsOfPut(rest, j, there);
    PutIsDistinct(Ids(rest), j, card.id);
    assert ordered[j] == card.id;
    IndexIsUnique(ordered, j);
    Reorder.ReorderHonoursTheDrop(rows, number, ordered, card.id);
  }

}
