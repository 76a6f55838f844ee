/** The page of web/src/pages/Board.tsx: the state that the drag handlers assign to. */
module BoardPage {
  import opened Wrappers
  import opened BoardOrder
  import B = Board

  /** A drag: the columns it started from, its card and where that was, and the columns of every render. */
  datatype Drag = Drag(home: B.Columns, card: B.Card, origin: B.StatusId, index: nat, renders: seq<B.Columns>)

  /** It started from a card of columns that are a partition. */
  ghost predicate Started(d: Drag) {
    && B.Tidy(d.home) && d.origin in d.home.at && d.index < |d.home.at[d.origin]|
       && d.card == d.home.at[d.origin][d.index]
    && !("col:" <= d.card.id) && d.origin != ""
  }

  /** The columns there are by now, and all that were rendered, are those it started from with one card
      taken out and put in somewhere. */
  ghost predicate Rendered(d: Drag, columns: B.Columns) {
    B.Growing(d.renders) && columns == d.renders[|d.renders| - 1] && B.AllPlaced(d.home, d.card, d.renders)
  }

  lemma CardsAreCards(columns: B.Columns, s: B.StatusId, i: nat)
    requires B.Tidy(columns) && s in columns.at && i < |columns.at[s]|
    ensures s != "" && !("col:" <= columns.at[s][i].id)
  {
    assert B.ColumnOf(s, columns.at[s]) && columns.at[s][i] in columns.at[s];
  }

  lemma StartsPlaced(columns: B.Columns, s: B.StatusId, i: nat)
    requires B.Tidy(columns) && s in columns.at && i < |columns.at[s]|
    ensures B.IsObject(columns) && B.PlacedSomewhere(columns, columns.at[s][i], columns)
    ensures B.FindStatus(columns, columns.at[s][i].id) == Some(s)
  {
    CardsAreCards(columns, s, i);
    B.StartIsPlaced(columns, s, i);
    B.PlacedIsFound(columns, columns.at[s][i], columns, s, i);
  }

  lemma FirstRender(home: B.Columns, card: B.Card)
    requires B.Tidy(home) && B.PlacedSomewhere(home, card, home)
    ensures B.Growing([home]) && B.AllPlaced(home, card, [home])
  {}

  lemma SeenIsOlder(d: Drag, columns: B.Columns, seen: B.Columns)
    requires Rendered(d, columns) && seen in d.renders
    ensures B.IsObject(seen) && B.IsObject(columns) && B.Grows(seen, columns) && B.PlacedSomewhere(d.home, d.card, seen)
  {
    var k :| 0 <= k < |d.renders| && seen == d.renders[k];
    assert B.Grows(d.renders[k], d.renders[|d.renders| - 1]);
  }

  lemma LatestIsPlaced(d: Drag, columns: B.Columns)
    requires Rendered(d, columns)
    ensures B.PlacedSomewhere(d.home, d.card, columns)
  {
    assert columns in d.renders;
  }

  lemma SomewhereIsRepartitioned(home: B.Columns, card: B.Card, cols: B.Columns)
    requires B.Tidy(home) && !("col:" <= card.id) && B.PlacedSomewhere(home, card, cols)
    ensures B.Repartitioned(home, card, cols)
  {
    var s, i :| B.Placed(home, card, cols, s, i);
    B.PlacedIsRepartitioned(home, card, cols, s, i);
  }

  lemma RendersGrow(renders: seq<B.Columns>, next: B.Columns)
    requires B.Growing(renders) && B.IsObject(next) && B.Grows(renders[|renders| - 1], next)
    ensures B.Growing(renders + [next])
  {
    var more := renders + [next];
    forall k, l | 0 <= k <= l < |more| ensures B.Grows(more[k], more[l]) {
      if k < |renders| { assert B.Grows(renders[k], renders[|renders| - 1]); }
    }
  }

  lemma GoesOn(d: Drag, columns: B.Columns, seen: B.Columns, over: Option<string>)
    requires Rendered(d, columns) && seen in d.renders && !("col:" <= d.card.id)
    requires B.IsObject(seen) && seen.at.Keys <= columns.at.Keys
    ensures var next := B.DragOver(seen, columns, d.card.id, over);
            Rendered(d.(renders := d.renders + [next]), next) && B.PlacedSomewhere(d.home, d.card, next)
  {
    var next := B.DragOver(seen, columns, d.card.id, over);
    B.NextIsPlaced(d.home, d.card, d.renders, seen, columns, over);
    SeenIsOlder(d, columns, columns);
    RendersGrow(d.renders, next);
    assert next in d.renders + [next];
  }

  /** Where the card goes, from where it is and was when the handler was made. */
  ghost predicate OverDoes(home: B.Columns, card: B.Card, seen: B.Columns, prev: B.Columns, over: Option<string>,
                           next: B.Columns)
  {
    exists s0, i0, s, i ::
      && B.Placed(home, card, seen, s0, i0) && B.Placed(home, card, prev, s, i)
      && B.Goes(home, card, prev, s0, s, over, next)
  }

  lemma ItDoes(d: Drag, seen: B.Columns, prev: B.Columns, over: Option<string>)
    requires Started(d) && B.IsObject(seen) && seen.at.Keys <= prev.at.Keys
    requires B.PlacedSomewhere(d.home, d.card, seen) && B.PlacedSomewhere(d.home, d.card, prev)
    ensures OverDoes(d.home, d.card, seen, prev, over, B.DragOver(seen, prev, d.card.id, over))
  {
    hide B.Tidy, B.Placed, B.DragOver, B.Goes;
    var s0, i0 :| B.Placed(d.home, d.card, seen, s0, i0);
    var s, i :| B.Placed(d.home, d.card, prev, s, i);
    B.OverGoes(d.home, d.card, seen, prev, s0, i0, s, i, over);
  }

  /** What a drop does, unless it restores the board: it asks for what it shows. */
  ghost predicate Drops(d: Drag, seen: B.Columns, over: Option<string>, extras: Option<Option<string>>,
                        r: B.MoveRequest, shown: B.Columns)
    requires B.IsObject(seen) && !("col:" <= d.card.id) && B.FindStatus(seen, d.card.id).Some?
  {
    && over.Some? && B.Repartitioned(d.home, d.card, shown)
    && var (s, ordered) := B.Landing(seen, d.card.id, over.value);
       s in shown.at && B.Ids(shown.at[s]) == ordered && B.Asks(r, d.card.id, s, d.origin, ordered, extras)
  }

  lemma Ends(d: Drag, seen: B.Columns, board: B.BoardData, over: Option<string>, extras: Option<Option<string>>)
    requires Started(d) && B.IsObject(seen) && B.PlacedSomewhere(d.home, d.card, seen)
    ensures B.FindStatus(seen, d.card.id).Some?
    ensures var out := B.DragEnd(seen, board, Some(d.origin), d.card.id, over, extras);
            !out.Ignored? && (out.Sent? ==>
              B.Repartitioned(d.home, d.card, out.shown) && Drops(d, seen, over, extras, out.request, out.shown))
  {
    hide B.Tidy, B.Placed, B.Landing, B.Asks, B.Repartitioned;
    var s, i :| B.Placed(d.home, d.card, seen, s, i);
    B.PlacedIsFound(d.home, d.card, seen, s, i);
    if over.Some? { EndsOver(d, seen, board, s, i, over.value, extras); }
  }

  lemma EndsOver(d: Drag, seen: B.Columns, board: B.BoardData, s: B.StatusId, i: nat, over: string,
      extras: Option<Option<string>>)
    requires Started(d) && B.IsObject(seen) && B.Placed(d.home, d.card, seen, s, i)
    ensures B.FindStatus(seen, d.card.id).Some?
    ensures var out := B.DragEnd(seen, board, Some(d.origin), d.card.id, Some(over), extras);
            !out.Ignored? && (out.Sent? ==> Drops(d, seen, Some(over), extras, out.request, out.shown))
  {
    hide B.Tidy, B.DragEnd, B.Asks, B.Repartitioned;
    B.PlacedIsFound(d.home, d.card, seen, s, i);
    var j := B.SentShowsTheLanding(board, d.home, d.origin, d.card, seen, s, i, over, extras);
    var out := B.DragEnd(seen, board, Some(d.origin), d.card.id, Some(over), extras);
    if out.Sent? { B.PlacedIsRepartitioned(d.home, d.card, out.shown, s, j); }
  }

  /** And it asks if and only if the card has landed elsewhere, as long as the board is the one it started from. */
  lemma EndsIff(d: Drag, seen: B.Columns, board: B.BoardData, over: string, extras: Option<string>)
    requires B.WellFormed(board) && d.home == B.ToColumns(board) && Started(d)
    requires B.IsObject(seen) && B.PlacedSomewhere(d.home, d.card, seen)
    ensures B.FindStatus(seen, d.card.id).Some?
    ensures B.DragEnd(seen, board, Some(d.origin), d.card.id, Some(over), Some(extras)).Sent?
       <==> B.Landing(seen, d.card.id, over) != (d.origin, B.Ids(d.home.at[d.origin]))
    ensures B.Landing(seen, d.card.id, over).0 == B.FindStatus(seen, d.card.id).value
  {
    var s, i :| B.Placed(d.home, d.card, seen, s, i);
    B.DropSendsIff(board, d.home, d.origin, d.index, d.card, seen, s, i, over, extras);
  }

  /** In another column than the one it came from, the answer of the dialog decides. */
  lemma DialogDecides(d: Drag, seen: B.Columns, board: B.BoardData, over: string, extras: Option<Option<string>>)
    requires Started(d) && B.IsObject(seen) && B.PlacedSomewhere(d.home, d.card, seen)
    requires B.FindStatus(seen, d.card.id) != Some(d.origin)
    ensures var out := B.DragEnd(seen, board, Some(d.origin), d.card.id, Some(over), extras);
            if extras == None then out.Restored? else out.Sent?
  {
    var s, i :| B.Placed(d.home, d.card, seen, s, i);
    B.PlacedIsFound(d.home, d.card, seen, s, i);
    var (_, ordered) := B.Landing(seen, d.card.id, over);
    B.SendsByIndex(seen, board, d.origin, d.card.id, s, ordered, over, if extras.Some? then extras.value else None);
  }

  /** What the handler of a drop closes over while it waits for the dialog. */
  datatype Drop = Drop(seen: B.Columns, board: B.BoardData, origin: B.StatusId, id: B.CardId, over: string)

  /** The card of the drag is where that was seen, in another column than the one it came from. */
  ghost predicate Waits(d: Drag, w: Drop) {
    && Started(d) && B.WellFormed(w.board) && w.origin == d.origin && w.id == d.card.id
    && B.IsObject(w.seen) && B.PlacedSomewhere(d.home, d.card, w.seen)
       && B.FindStatus(w.seen, d.card.id) != Some(d.origin)
  }

  lemma ItWaits(d: Drag, w: Drop)
    requires Started(d) && B.WellFormed(w.board) && w.origin == d.origin && w.id == d.card.id
    requires B.IsObject(w.seen) && B.PlacedSomewhere(d.home, d.card, w.seen)
        && B.FindStatus(w.seen, d.card.id) != Some(d.origin)
    ensures Waits(d, w)
  {}

  lemma CacheStaysWellFormed(d: Drag, board: B.BoardData, shown: B.Columns)
    requires B.WellFormed(board) && B.Repartitioned(d.home, d.card, shown)
    ensures B.Tidy(shown)
    ensures (forall c <- board :: c.status in d.home.at) ==> B.WellFormed(B.CachedBoard(board, shown))
  {
    if forall c <- board :: c.status in d.home.at { B.CachedIsWellFormed(board, shown); }
  }

  /** What comes of the dialog: the move is sent if and only if it was not cancelled, and asks for the place
      that is shown from then on, whatever board has arrived meanwhile; else the board of the drop is shown. */
  ghost predicate Answered(d: Drag, w: Drop, before: B.BoardData, extras: Option<Option<string>>,
                           request: Option<B.MoveRequest>, columns: B.Columns, after: B.BoardData)
  {
    && B.Tidy(columns) && (request.Some? <==> extras.Some?)
    && B.IsObject(w.seen) && !("col:" <= d.card.id) && B.FindStatus(w.seen, d.card.id).Some?
    && (request.Some? ==> Drops(d, w.seen, Some(w.over), extras, request.value, columns))
    && (request == None ==> after == before && B.HasColumns(columns, w.board))
    && ((forall c <- before :: c.status in d.home.at) ==> B.WellFormed(after))
  }

  lemma CancelledIsAnswered(d: Drag, w: Drop, before: B.BoardData)
    requires B.WellFormed(before) && Waits(d, w)
    ensures Answered(d, w, before, None, None, B.ToColumns(w.board), before)
  {
    hide B.WellFormed, B.PlacedSomewhere, B.Tidy, B.HasColumns, Drops;
    Ends(d, w.seen, w.board, Some(w.over), None);
    B.HomeIsTidy(w.board);
  }

  lemma SentIsAnswered(d: Drag, w: Drop, before: B.BoardData, extras: Option<string>)
    requires B.WellFormed(before) && Waits(d, w)
    ensures B.IsObject(w.seen) && !("col:" <= w.id)
    ensures var out := B.DragEnd(w.seen, w.board, Some(w.origin), w.id, Some(w.over), Some(extras));
            && out.Sent?
            && Answered(d, w, before, Some(extras), Some(out.request), out.shown, B.CachedBoard(before, out.shown))
  {
    hide B.WellFormed, B.PlacedSomewhere, B.Tidy, B.HasColumns, B.Repartitioned, B.DragEnd, Drops;
    Ends(d, w.seen, w.board, Some(w.over), Some(extras));
    DialogDecides(d, w.seen, w.board, w.over, Some(extras));
    var out := B.DragEnd(w.seen, w.board, Some(w.origin), w.id, Some(w.over), Some(extras));
    CacheStaysWellFormed(d, before, out.shown);
  }

  lemma AnsweredIsTidy(d: Drag, w: Drop, before: B.BoardData, extras: Option<Option<string>>,
                       request: Option<B.MoveRequest>, columns: B.Columns, after: B.BoardData)
    requires Answered(d, w, before, extras, request, columns, after)
    ensures B.Tidy(columns) && ((forall c <- before :: c.status in d.home.at) ==> B.WellFormed(after))
  {}

  class BoardPage {
    var columns: B.Columns
    var activeId: Option<B.CardId>
    var originStatus: Option<B.StatusId>
    /** The board in the query cache. */
    var board: B.BoardData

    /** The drop whose dialog is open. */
    var waiting: Option<Drop>

    /** The drag under way, or the last one; and the one whose drop waits. */
    ghost var drag: Drag
    ghost var dropped: Drag

    /** The columns are a partition of cards into their statuses; during a drag they differ from those it
        started from only in where its card is. */
    ghost predicate Valid()
      reads this
    {
      && B.WellFormed(board) && B.Tidy(columns)
      && (activeId.Some? ==>
            Started(drag) && Rendered(drag, columns) && activeId == Some(drag.card.id)
                && originStatus == Some(drag.origin))
      && (waiting.Some? ==> Waits(dropped, waiting.value))
    }

    /** Every column of the server's board is shown as it is there, and no other. */
    ghost predicate ShowsBoard()
      reads this
    {
      B.HasColumns(columns, board)
    }

    constructor (fetched: B.BoardData)
      requires B.WellFormed(fetched)
      ensures Valid() && board == fetched && ShowsBoard() && activeId == None && waiting == None
    {
      board, columns := fetched, B.ToColumns(fetched);
      activeId, originStatus, waiting := None, None, None;
      drag := Drag(B.NO_COLUMNS, B.Card("", "", ""), "", 0, []);
      dropped := Drag(B.NO_COLUMNS, B.Card("", "", ""), "", 0, []);
      B.HomeIsTidy(fetched);
    }

    /** The effect on the board's data shows it, except while a card is dragged. */
    method OnBoard(fetched: B.BoardData)
      requires Valid() && B.WellFormed(fetched)
      modifies this`board, this`columns
      ensures Valid() && board == fetched
      ensures activeId == None ==> ShowsBoard()
      ensures activeId.Some? ==> columns == old(columns)
    {
      board := fetched;
      if activeId == None {
        columns := B.ToColumns(board);
        B.HomeIsTidy(board);
      }
    }

    /** Taking up a card that is shown begins a drag from the columns there are. */
    method OnDragStart(active: B.CardId, ghost s: B.StatusId, ghost i: nat)
      requires Valid() && activeId == None && s in columns.at && i < |columns.at[s]| && columns.at[s][i].id == active
      modifies this`activeId, this`originStatus, this`drag
      ensures Valid() && activeId == Some(active)
      ensures originStatus == Some(s) && drag == Drag(columns, columns.at[s][i], s, i, [columns])
    {
      hide B.Tidy, B.Growing, B.AllPlaced, B.PlacedSomewhere, B.WellFormed;
      CardsAreCards(columns, s, i);
      StartsPlaced(columns, s, i);
      FirstRender(columns, columns.at[s][i]);
      activeId := Some(active);
      originStatus := B.FindStatus(columns, active);
      drag := Drag(columns, columns.at[s][i], s, i, [columns]);
    }

    /** Whatever the card is dragged over, and however old the render that made the handler: no card is
        lost, none is doubled, and all but the dragged one stay where they were. */
    method OnDragOver(seen: B.Columns, over: Option<string>)
      requires Valid() && activeId.Some? && seen in drag.renders
      modifies this`columns, this`drag
      ensures Valid()
      ensures drag == old(drag).(renders := old(drag.renders) + [columns])
          && B.Repartitioned(drag.home, drag.card, columns)
      ensures B.IsObject(seen) && seen.at.Keys <= old(columns.at.Keys)
      ensures columns == B.DragOver(seen, old(columns), drag.card.id, over)
      ensures OverDoes(drag.home, drag.card, seen, old(columns), over, columns)
    {
      hide B.Tidy, B.Growing, B.AllPlaced, B.PlacedSomewhere, B.WellFormed, B.Repartitioned, B.DragOver, OverDoes;
      SeenIsOlder(drag, columns, seen);
      GoesOn(drag, columns, seen, over);
      LatestIsPlaced(drag, columns);
      ItDoes(drag, seen, columns, over);
      SomewhereIsRepartitioned(drag.home, drag.card, B.DragOver(seen, columns, drag.card.id, over));
      columns := B.DragOver(seen, columns, activeId.value, over);
      drag := drag.(renders := drag.renders + [columns]);
    }

    /** The drop. In the column the card came from, a move is sent at once; while the board has not changed
        since the start, it is sent if and only if the order differs. In another column the dialog of its
        status is asked first, and meanwhile the board of the server is shown again. What is sent asks for
        the place that is shown. */
    method OnDragEnd(seen: B.Columns, over: Option<string>) returns (request: Option<B.MoveRequest>)
      requires Valid() && waiting == None && activeId.Some? && seen in drag.renders
      modifies this
      ensures activeId == None && B.Tidy(columns) && drag == old(drag)
      ensures request == None ==> Valid() && board == old(board) && ShowsBoard()
      ensures (forall c <- old(board) :: c.status in drag.home.at) ==> Valid()
      ensures B.IsObject(seen) && B.FindStatus(seen, drag.card.id).Some?
      ensures waiting.Some? <==> over.Some? && B.FindStatus(seen, drag.card.id) != Some(drag.origin)
      ensures waiting.Some? ==>
                request == None && dropped == drag
                    && waiting.value == Drop(seen, board, drag.origin, drag.card.id, over.value)
      ensures request.Some? ==> Drops(drag, seen, over, Some(None), request.value, columns)
      ensures over.Some? && waiting == None && drag.home == B.ToColumns(old(board)) ==>
                (request.Some? <==> B.Landing(seen, drag.card.id, over.value).1 != B.Ids(drag.home.at[drag.origin]))
    {
      hide B.Tidy, B.Growing, B.AllPlaced, B.PlacedSomewhere, B.WellFormed, B.Repartitioned;
      hide B.DragEnd, B.Landing, B.FindStatus, B.IsObject, B.HasColumns, Drops, Waits;
      SeenIsOlder(drag, columns, seen);
      Ends(drag, seen, board, over, Some(None));
      if over.Some? && drag.home == B.ToColumns(board) { EndsIff(drag, seen, board, over.value, None); }
      var id := activeId.value;
      activeId, request := None, None;
      if over.Some? && B.FindStatus(seen, id) != originStatus {
        ItWaits(drag, Drop(seen, board, originStatus.value, id, over.value));
        waiting := Some(Drop(seen, board, originStatus.value, id, over.value));
        dropped := drag;
        columns := B.ToColumns(board);
        B.HomeIsTidy(board);
        return;
      }
      match B.DragEnd(seen, board, originStatus, id, over, Some(None)) {
        case Ignored =>
        case Restored =>
          columns := B.ToColumns(board);
          B.HomeIsTidy(board);
        case Sent(r, shown) =>
          request := Some(r);
          ShowAtOnce(drag, shown);
      }
    }

    /** The optimistic update: of the columns, and of the board that is cached by then. */
    method ShowAtOnce(ghost d: Drag, shown: B.Columns)
      requires B.WellFormed(board) && B.Repartitioned(d.home, d.card, shown)
      modifies this`columns, this`board
      ensures columns == shown && B.Tidy(columns)
      ensures (forall c <- old(board) :: c.status in d.home.at) ==> B.WellFormed(board)
    {
      CacheStaysWellFormed(d, board, shown);
      columns := shown;
      board := B.CachedBoard(board, shown);
    }

    /** The dialog is cancelled: the handler of the drop shows the board it closed over. */
    method OnCancelled()
      requires Valid() && waiting.Some?
      modifies this`columns, this`waiting
      ensures waiting == None && Answered(dropped, old(waiting.value), board, None, None, columns, board)
      ensures activeId == None ==> Valid()
    {
      hide B.WellFormed, B.Tidy, B.HasColumns, B.IsObject, B.FindStatus, B.DragEnd, B.ToColumns, B.CachedBoard;
      hide Drops, Waits, Started, Rendered, Answered;
      var w := waiting.value;
      CancelledIsAnswered(dropped, w, board);
      AnsweredIsTidy(dropped, w, board, None, None, B.ToColumns(w.board), board);
      waiting, columns := None, B.ToColumns(w.board);
    }

    /** The dialog is answered: the handler of the drop goes on with what it closed over. */
    method OnExtras(extras: Option<string>) returns (request: B.MoveRequest)
      requires Valid() && waiting.Some?
      modifies this`columns, this`board, this`waiting
      ensures waiting == None && Answered(dropped, old(waiting.value), old(board), Some(extras), Some(request),
          columns, board)
      ensures activeId == None && (forall c <- old(board) :: c.status in dropped.home.at) ==> Valid()
    {
      hide B.WellFormed, B.Tidy, B.HasColumns, B.IsObject, B.FindStatus, B.DragEnd, B.ToColumns, B.CachedBoard;
      hide Drops, Waits, Started, Rendered, Answered;
      var w := waiting.value;
      SentIsAnswered(dropped, w, board, extras);
      var out := B.DragEnd(w.seen, w.board, Some(w.origin), w.id, Some(w.over), Some(extras));
      ghost var after := B.CachedBoard(board, out.shown);
      AnsweredIsTidy(dropped, w, board, Some(extras), Some(out.request), out.shown, after);
      waiting, request := None, out.request;
      columns, board := out.shown, B.CachedBoard(board, out.shown);
    }

    /** A cancelled drag leaves the server's board, and so does a move that the server refuses, once the
        board from before it is put back. */
    method OnDragCancel()
      requires Valid()
      modifies this`activeId, this`columns
      ensures Valid() && activeId == None && ShowsBoard()
    {
      activeId := None;
      columns := B.ToColumns(board);
      B.HomeIsTidy(board);
    }

    method OnMoveFailed(previous: B.BoardData)
      requires Valid() && B.WellFormed(previous)
      modifies this`board, this`columns
      ensures board == previous && ShowsBoard()
      ensures activeId == None ==> Valid()
    {
      board, columns := previous, B.ToColumns(previous);
      B.HomeIsTidy(previous);
    }
  }
}
