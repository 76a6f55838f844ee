/** web/src/pages/Board.tsx: dragging a card over a board whose columns follow the pointer. */
module Board {
  import opened Wrappers
  import opened BoardOrder

  type CardId = string
  type StatusId = string

  /** A card: its id, the status it shows, and everything else on it. */
  datatype Card = Card(id: CardId, status: StatusId, content: string)

  datatype Column = Column(status: StatusId, cards: seq<Card>)

  /** The board as the server sent it. */
  type BoardData = seq<Column>

  /** A JavaScript object from status to cards: its keys in insertion order, and its entries. */
  datatype Columns = Columns(keys: seq<StatusId>, at: map<StatusId, seq<Card>>)

  const NO_COLUMNS := Columns([], map[])

  /** An object lists each of its keys once. */
  ghost predicate IsObject(cols: Columns) {
    Distinct(cols.keys) && forall k :: k in cols.keys <==> k in cols.at
  }

  /** Assigning a key: a new one goes last, an old one stays where it is. */
  function Assign(cols: Columns, key: StatusId, cards: seq<Card>): (r: Columns)
    ensures r.at == cols.at[key := cards] && cols.keys <= r.keys
    ensures IsObject(cols) ==> IsObject(r)
  {
    Columns(if key in cols.at then cols.keys else cols.keys + [key], cols.at[key := cards])
  }

  function ToColumns(board: BoardData): (cols: Columns)
    ensures IsObject(cols)
  {
    if board == [] then NO_COLUMNS
    else
      var last := board[|board| - 1];
      Assign(ToColumns(board[..|board| - 1]), last.status, last.cards)
  }

  function Ids(cards: seq<Card>): (ids: seq<CardId>)
    ensures |ids| == |cards| && forall i :: 0 <= i < |cards| ==> ids[i] == cards[i].id
  {
    seq(|cards|, i requires 0 <= i < |cards| => cards[i].id)
  }

  /** Array.prototype.filter with c.id !== id. */
  function Others(cards: seq<Card>, id: CardId): (rest: seq<Card>)
    ensures id !in Ids(rest)
    ensures id !in Ids(cards) ==> rest == cards
  {
    if cards == [] then []
    else
      assert forall x :: x in Ids(cards) <==> x == cards[0].id || x in Ids(cards[1..]);
      var rest := Others(cards[1..], id);
      if cards[0].id == id then rest else [cards[0]] + rest
  }

  lemma {:induction false} OthersOfBoth(a: seq<Card>, b: seq<Card>, id: CardId)
    ensures Others(a + b, id) == Others(a, id) + Others(b, id)
  {
    if a == [] {
      assert a + b == b;
    } else {
      assert (a + b)[0] == a[0] && (a + b)[1..] == a[1..] + b;
      OthersOfBoth(a[1..], b, id);
    }
  }

  lemma OthersOfPut(cards: seq<Card>, i: nat, card: Card)
    requires i <= |cards| && card.id !in Ids(cards)
    ensures Others(Put(cards, i, card), card.id) == cards
  {
    var one := [card];
    assert one[1..] == [] && Others(one, card.id) == [];
    assert Put(cards, i, card) == (cards[..i] + one) + cards[i..];
    assert cards == cards[..i] + cards[i..];
    OthersOfBoth(cards[..i] + one, cards[i..], card.id);
    OthersOfBoth(cards[..i], one, card.id);
    OthersOfBoth(cards[..i], cards[i..], card.id);
  }

  // ------------------------------------------------------------------------ handlers

  /** The first of these columns that has the card. */
  function Holder(cols: Columns, keys: seq<StatusId>, id: CardId): (s: Option<StatusId>)
    requires forall k <- keys :: k in cols.at
    ensures if s.Some? then s.value in keys && id in Ids(cols.at[s.value])
        else forall k <- keys :: id !in Ids(cols.at[k])
  {
    if keys == [] then None
    else if id in Ids(cols.at[keys[0]]) then Some(keys[0])
    else Holder(cols, keys[1..], id)
  }

  /** What is under the pointer: `col:` and a status, or a card. */
  function FindStatus(cols: Columns, id: string): Option<StatusId>
    requires IsObject(cols)
  {
    if "col:" <= id then Some(id[4..]) else Holder(cols, cols.keys, id)
  }

  /** A string that JavaScript takes for false. */
  predicate Falsy(s: Option<string>) { s == None || s == Some("") }

  /** Takes the card out of one column, if it is there, and puts it into another, above the card that is
      under the pointer or last. */
  function Shift(prev: Columns, from: StatusId, to: StatusId, active: CardId, over: string): (next: Columns)
    requires from in prev.at
    ensures prev.at.Keys <= next.at.Keys && (IsObject(prev) ==> IsObject(next))
  {
    var i := IndexOf(Ids(prev.at[from]), active);
    if i < 0 then prev
    else
      var card := prev.at[from][i];
      var target := if to in prev.at then prev.at[to] else [];
      var overIndex := IndexOf(Ids(target), over);
      var index := if overIndex >= 0 then overIndex else |target|;
      Assign(Assign(prev, from, Others(prev.at[from], active)), to, Put(target, index, card.(status := to)))
  }

  /** The column a card is dragged from and the one it is over, if they are two. */
  function Hover(cols: Columns, active: CardId, over: string): Option<(StatusId, StatusId)>
    requires IsObject(cols)
  {
    var from, to := FindStatus(cols, active), FindStatus(cols, over);
    if Falsy(from) || Falsy(to) || from == to then None else Some((from.value, to.value))
  }

  /** `seen` are the columns of the last render, which the handler closes over; `prev` are the latest. */
  function DragOver(seen: Columns, prev: Columns, active: CardId, over: Option<string>): (next: Columns)
    requires IsObject(seen) && seen.at.Keys <= prev.at.Keys && !("col:" <= active)
    ensures prev.at.Keys <= next.at.Keys && (IsObject(prev) ==> IsObject(next))
  {
    if over == None then prev
    else
      match Hover(seen, active, over.value)
      case None => prev
      case Some((from, to)) => Shift(prev, from, to, active, over.value)
  }

  /** Where the card lands: its column and the ids of that column, in order. */
  function Landing(cols: Columns, id: CardId, over: string): (StatusId, seq<CardId>)
    requires IsObject(cols) && !("col:" <= id) && FindStatus(cols, id).Some?
  {
    var status := FindStatus(cols, id).value;
    var ordered := Ids(cols.at[status]);
    var overIndex, fromIndex := IndexOf(ordered, over), IndexOf(ordered, id);
    (status, if overIndex >= 0 && fromIndex != overIndex then Moved(ordered, fromIndex, overIndex) else ordered)
  }

  datatype MoveRequest = MoveRequest(id: CardId, to: Option<StatusId>, place: Between, resolution: Option<string>)

  /** A drop does nothing, shows the server's board again, or sends a move and shows it at once. */
  datatype Outcome = Ignored | Restored | Sent(request: MoveRequest, shown: Columns)

  /** The index of the card in its column on the server's board, or -1. */
  function ServerIndex(board: BoardData, status: StatusId, id: CardId): int {
    if board == [] then -1
    else if board[0].status == status then IndexOf(Ids(board[0].cards), id)
    else ServerIndex(board[1..], status, id)
  }

  /** The entry of a Map built from all cards in key order: the last card with that id. */
  function CardById(cols: Columns, keys: seq<StatusId>, id: CardId): (c: Option<Card>)
    requires forall k <- keys :: k in cols.at
  {
    if keys == [] then None
    else
      var k := keys[|keys| - 1];
      var last := LastOf(cols.at[k], id);
      if last.Some? then last else CardById(cols, keys[..|keys| - 1], id)
  }

  function LastOf(cards: seq<Card>, id: CardId): (c: Option<Card>)
    ensures c.Some? ==> c.value in cards && c.value.id == id
    ensures c == None ==> id !in Ids(cards)
  {
    if cards == [] then None
    else
      var last := cards[|cards| - 1];
      assert forall x :: x in Ids(cards) ==> x == last.id || x in Ids(cards[..|cards| - 1]);
      if last.id == id then Some(last) else LastOf(cards[..|cards| - 1], id)
  }

  function CardsById(cols: Columns, ids: seq<CardId>): seq<Card>
    requires IsObject(cols)
  {
    if ids == [] then []
    else
      var c := CardById(cols, cols.keys, ids[0]);
      (if c.Some? then [c.value] else []) + CardsById(cols, ids[1..])
  }

  /** `extras` is what the dialog of the target status answers: nothing when the user cancels it. It is
      asked for only when the status changes. */
  function DragEnd(cols: Columns, board: BoardData, origin: Option<StatusId>, id: CardId,
                   over: Option<string>, extras: Option<Option<string>>): Outcome
    requires IsObject(cols) && !("col:" <= id)
  {
    if over == None || Falsy(origin) then Restored
    else if Falsy(FindStatus(cols, id)) then Ignored
    else
      var (status, ordered) := Landing(cols, id, over.value);
      var changed := status != origin.value;
      if !changed && IndexOf(ordered, id) == ServerIndex(board, status, id) then Restored
      else if changed && extras == None then Restored
      else
        Sent(MoveRequest(id, if changed then Some(status) else None, Neighbours(ordered, id),
                         if changed then extras.value else None),
             Assign(cols, status, CardsById(cols, ordered)))
  }

  /** The cached board after an optimistic update. */
  function CachedBoard(previous: BoardData, shown: Columns): (b: BoardData)
    ensures |b| == |previous|
  {
    seq(|previous|, i requires 0 <= i < |previous| =>
      var c := previous[i];
      Column(c.status, if c.status in shown.at then shown.at[c.status] else c.cards))
  }

  // ----------------------------------------------------------------------- invariant

  /** The cards of one column: each once, and each in the column of its status. Status and card ids are
      UUIDs: not empty, and unlike the id of a column. */
  ghost predicate ColumnOf(status: StatusId, cards: seq<Card>) {
    status != "" && Distinct(Ids(cards)) && forall c <- cards :: c.status == status && !("col:" <= c.id)
  }

  ghost predicate Apart(cards: seq<Card>, others: seq<Card>) {
    forall x <- Ids(cards) :: x !in Ids(others)
  }

  /** A board as the server sends it: one column per status, every card in one of them. */
  ghost predicate WellFormed(board: BoardData) {
    && (forall i :: 0 <= i < |board| ==> ColumnOf(board[i].status, board[i].cards))
    && (forall i, j :: 0 <= i < |board| && 0 <= j < |board| && i != j ==>
          board[i].status != board[j].status && Apart(board[i].cards, board[j].cards))
  }

  /** The same of the columns made from it. */
  ghost predicate Tidy(cols: Columns) {
    && IsObject(cols)
    && (forall k <- cols.at :: ColumnOf(k, cols.at[k]))
    && (forall k, l | k in cols.at && l in cols.at && k != l :: Apart(cols.at[k], cols.at[l]))
  }

  /** A column of the board as it was, without the card that is dragged. */
  function Without(home: Columns, id: CardId, k: StatusId): (rest: seq<Card>)
    ensures id !in Ids(rest)
  {
    if k in home.at then Others(home.at[k], id) else []
  }

  /** The columns are the board's, with the dragged card taken out and put in again somewhere. */
  ghost predicate PlacedIn(home: Columns, card: Card, at: map<StatusId, seq<Card>>, s: StatusId, i: nat) {
    && s in at && s != ""
    && (forall k <- at :: k != s ==> at[k] == Without(home, card.id, k))
    && i <= |Without(home, card.id, s)|
    && at[s] == Put(Without(home, card.id, s), i, card.(status := s))
  }

  /** They have all the keys of the board's, in the same order, and maybe more. */
  ghost predicate Extends(home: Columns, cols: Columns) {
    IsObject(home) && IsObject(cols) && home.keys <= cols.keys && "" !in cols.at
  }

  ghost predicate Placed(home: Columns, card: Card, cols: Columns, s: StatusId, i: nat) {
    Extends(home, cols) && PlacedIn(home, card, cols.at, s, i)
  }

  lemma ExtendsAt(home: Columns, cols: Columns, k: StatusId)
    requires Extends(home, cols) && k in home.at
    ensures k in cols.at
  {
    assert k in home.keys;
    assert k in cols.keys;
  }

  lemma AssignExtends(home: Columns, cols: Columns, k: StatusId, cards: seq<Card>)
    requires Extends(home, cols) && k != ""
    ensures Extends(home, Assign(cols, k, cards))
  {}

  ghost predicate HasColumns(cols: Columns, board: BoardData) {
    && |cols.keys| == |board|
    && (forall i :: 0 <= i < |board| ==> cols.keys[i] == board[i].status && cols.keys[i] in cols.at
                                         && cols.at[cols.keys[i]] == board[i].cards)
  }

  lemma AssignAddsColumn(before: Columns, init: BoardData, last: Column)
    requires HasColumns(before, init) && IsObject(before) && forall c <- init :: c.status != last.status
    ensures HasColumns(Assign(before, last.status, last.cards), init + [last])
  {
    forall i | 0 <= i < |init| ensures before.keys[i] != last.status {
      assert init[i] in init;
    }
  }

  lemma {:induction false} HomeHasColumns(board: BoardData)
    requires WellFormed(board)
    ensures HasColumns(ToColumns(board), board)
  {
    if board != [] {
      var init, last := board[..|board| - 1], board[|board| - 1];
      HomeHasColumns(init);
      AssignAddsColumn(ToColumns(init), init, last);
      assert board == init + [last];
    }
  }

  lemma HomeIsTidy(board: BoardData)
    requires WellFormed(board)
    ensures Tidy(ToColumns(board)) && HasColumns(ToColumns(board), board)
  {
    HomeHasColumns(board);
    var cols := ToColumns(board);
    forall k <- cols.at ensures ColumnOf(k, cols.at[k]) {
      var i := IndexOf(cols.keys, k);
      assert board[i].status == k;
    }
    forall k, l | k in cols.at && l in cols.at && k != l ensures Apart(cols.at[k], cols.at[l]) {
      var i, j := IndexOf(cols.keys, k), IndexOf(cols.keys, l);
      assert board[i].status == k && board[j].status == l;
    }
  }

  lemma PutIsFound(rest: seq<Card>, i: nat, card: Card)
    requires i <= |rest| && card.id !in Ids(rest)
    ensures IndexOf(Ids(Put(rest, i, card)), card.id) == i
  {
    var ids := Ids(Put(rest, i, card));
    assert ids[i] == card.id;
    assert forall j :: 0 <= j < i ==> ids[j] == Ids(rest)[j];
  }

  lemma PlacedIsHeld(home: Columns, card: Card, cols: Columns, s: StatusId, i: nat)
    requires Placed(home, card, cols, s, i)
    ensures Holder(cols, cols.keys, card.id) == Some(s)
  {
    PutIsFound(Without(home, card.id, s), i, card.(status := s));
    assert card.id in Ids(cols.at[s]);
    assert s in cols.keys;
    var h := Holder(cols, cols.keys, card.id);
    assert h.Some?;
    assert h.value in cols.at;
    assert h.value != s ==> cols.at[h.value] == Without(home, card.id, h.value);
  }

  lemma PlacedIsFound(home: Columns, card: Card, cols: Columns, s: StatusId, i: nat)
    requires Placed(home, card, cols, s, i) && !("col:" <= card.id)
    ensures FindStatus(cols, card.id) == Some(s) && IndexOf(Ids(cols.at[s]), card.id) == i
    ensures cols.at[s][i] == card.(status := s)
    ensures Others(cols.at[s], card.id) == Without(home, card.id, s)
  {
    OthersOfPut(Without(home, card.id, s), i, card.(status := s));
    PutIsFound(Without(home, card.id, s), i, card.(status := s));
    PlacedIsHeld(home, card, cols, s, i);
  }

  /** Before the first move the card is where the board has it. */
  lemma StartIsPlaced(home: Columns, s: StatusId, i: nat)
    requires Tidy(home) && s in home.at && i < |home.at[s]|
    ensures Placed(home, home.at[s][i], home, s, i)
  {
    var cards := home.at[s];
    var card, rest := cards[i], Dropped(cards, i);
    DroppedIsDistinct(Ids(cards), i);
    assert Ids(rest) == Dropped(Ids(cards), i);
    assert Put(rest, i, card) == cards;
    OthersOfPut(rest, i, card);
    assert Ids(cards)[i] == card.id;
    assert forall k <- home.at :: k != s ==> card.id !in Ids(home.at[k]);
  }

  lemma ShiftKeepsPlaced(home: Columns, card: Card, prev: Columns, s: StatusId, i: nat, to: StatusId,
                         over: string) returns (j: nat)
    requires Placed(home, card, prev, s, i) && !("col:" <= card.id) && to != s && to != ""
    ensures Placed(home, card, Shift(prev, s, to, card.id, over), to, j)
  {
    PlacedIsFound(home, card, prev, s, i);
    if to in home.at { ExtendsAt(home, prev, to); }
    var target := if to in prev.at then prev.at[to] else [];
    var overIndex := IndexOf(Ids(target), over);
    j := if overIndex >= 0 then overIndex else |target|;
    var rest, there := Without(home, card.id, s), Put(target, j, card.(status := to));
    assert Shift(prev, s, to, card.id, over) == Assign(Assign(prev, s, rest), to, there);
    AssignExtends(home, prev, s, rest);
    AssignExtends(home, Assign(prev, s, rest), to, there);
    ShiftedIsPlaced(home, card, prev.at, s, i, to, j);
  }

  lemma ShiftedIsPlaced(home: Columns, card: Card, at: map<StatusId, seq<Card>>, s: StatusId, i: nat, to: StatusId,
      j: nat)
    requires PlacedIn(home, card, at, s, i) && to != s && to != ""
    requires j <= |Without(home, card.id, to)| && (to in home.at ==> to in at)
    ensures var put := Put(Without(home, card.id, to), j, card.(status := to));
            PlacedIn(home, card, at[s := Without(home, card.id, s)][to := put], to, j)
  {}

  lemma HoverIsFrom(home: Columns, card: Card, cols: Columns, s: StatusId, i: nat, over: string)
    requires Placed(home, card, cols, s, i) && !("col:" <= card.id)
    ensures var h := Hover(cols, card.id, over); h.Some? ==> h.value.0 == s && h.value.1 != s && h.value.1 != ""
  {
    PlacedIsFound(home, card, cols, s, i);
  }

  lemma ShiftMisses(home: Columns, card: Card, prev: Columns, s: StatusId, i: nat, from: StatusId, to: StatusId,
                    over: string)
    requires Placed(home, card, prev, s, i) && from in prev.at && from != s
    ensures Shift(prev, from, to, card.id, over) == prev
  {
    assert prev.at[from] == Without(home, card.id, from);
  }

  /** Every drag event, even one handled by a stale render, leaves the card placed. */
  lemma OverKeepsPlaced(home: Columns, card: Card, seen: Columns, prev: Columns, over: Option<string>,
                        s0: StatusId, i0: nat, s: StatusId, i: nat)
      returns (s': StatusId, i': nat)
    requires !("col:" <= card.id) && seen.at.Keys <= prev.at.Keys
    requires Placed(home, card, seen, s0, i0) && Placed(home, card, prev, s, i)
    ensures Placed(home, card, DragOver(seen, prev, card.id, over), s', i')
  {
    var next := DragOver(seen, prev, card.id, over);
    if over == None || Hover(seen, card.id, over.value) == None {
      assert next == prev;
      return s, i;
    }
    HoverIsFrom(home, card, seen, s0, i0, over.value);
    var to := Hover(seen, card.id, over.value).value.1;
    assert next == Shift(prev, s0, to, card.id, over.value);
    if s0 == s {
      s' := to;
      i' := ShiftKeepsPlaced(home, card, prev, s, i, to, over.value);
    } else {
      ShiftMisses(home, card, prev, s, i, s0, to, over.value);
      s', i' := s, i;
    }
  }

  // ----------------------------------------------------------------------------- runs

  /** What the pointer is over, and how many renders behind the handler is. */
  datatype Over = Over(over: Option<string>, lag: nat)

  /** No column is lost from one to the other. */
  ghost predicate Grows(cols: Columns, later: Columns) { cols.at.Keys <= later.at.Keys }

  ghost predicate Growing(history: seq<Columns>) {
    && history != [] && (forall k :: 0 <= k < |history| ==> IsObject(history[k]))
    && (forall k, l :: 0 <= k <= l < |history| ==> Grows(history[k], history[l]))
  }

  function Step(history: seq<Columns>, active: CardId, e: Over): (next: seq<Columns>)
    requires Growing(history) && !("col:" <= active)
    ensures Growing(next)
  {
    var last := |history| - 1;
    var seen := history[if e.lag <= last then last - e.lag else 0];
    assert Grows(seen, history[last]);
    history + [DragOver(seen, history[last], active, e.over)]
  }

  /** All the columns that a drag goes through. */
  function Drag(history: seq<Columns>, active: CardId, events: seq<Over>): (all: seq<Columns>)
    requires Growing(history) && !("col:" <= active)
    ensures Growing(all)
    decreases |events|
  {
    if events == [] then history else Drag(Step(history, active, events[0]), active, events[1..])
  }

  ghost predicate PlacedSomewhere(home: Columns, card: Card, cols: Columns) {
    exists s, i :: Placed(home, card, cols, s, i)
  }

  ghost predicate AllPlaced(home: Columns, card: Card, history: seq<Columns>) {
    forall cols <- history :: PlacedSomewhere(home, card, cols)
  }

  lemma ShownKeepsPlaced(home: Columns, card: Card, seen: Columns, prev: Columns, over: Option<string>)
    requires seen.at.Keys <= prev.at.Keys && IsObject(seen) && !("col:" <= card.id)
    requires PlacedSomewhere(home, card, seen) && PlacedSomewhere(home, card, prev)
    ensures PlacedSomewhere(home, card, DragOver(seen, prev, card.id, over))
  {
    var s0, i0 :| Placed(home, card, seen, s0, i0);
    var s, i :| Placed(home, card, prev, s, i);
    var s', i' := OverKeepsPlaced(home, card, seen, prev, over, s0, i0, s, i);
  }

  lemma NextIsPlaced(home: Columns, card: Card, history: seq<Columns>, seen: Columns, prev: Columns,
      over: Option<string>)
    requires seen.at.Keys <= prev.at.Keys && IsObject(seen) && !("col:" <= card.id)
    requires AllPlaced(home, card, history) && seen in history && prev in history
    ensures AllPlaced(home, card, history + [DragOver(seen, prev, card.id, over)])
  {
    var next := DragOver(seen, prev, card.id, over);
    ShownKeepsPlaced(home, card, seen, prev, over);
    forall cols <- history + [next] ensures PlacedSomewhere(home, card, cols) {
      if cols != next { assert cols in history; }
    }
  }

  lemma StepIs(history: seq<Columns>, active: CardId, e: Over) returns (seen: Columns, prev: Columns)
    requires Growing(history) && !("col:" <= active)
    ensures seen in history && prev in history && seen.at.Keys <= prev.at.Keys && IsObject(seen)
    ensures Step(history, active, e) == history + [DragOver(seen, prev, active, e.over)]
  {
    var last := |history| - 1;
    seen, prev := history[if e.lag <= last then last - e.lag else 0], history[last];
    assert Grows(seen, prev);
  }

  lemma StepKeepsPlaced(home: Columns, card: Card, history: seq<Columns>, e: Over)
    requires Growing(history) && !("col:" <= card.id) && AllPlaced(home, card, history)
    ensures AllPlaced(home, card, Step(history, card.id, e))
  {
    var seen, prev := StepIs(history, card.id, e);
    NextIsPlaced(home, card, history, seen, prev, e.over);
  }

  lemma {:induction false} DragKeepsPlaced(home: Columns, card: Card, history: seq<Columns>, events: seq<Over>)
    requires Growing(history) && !("col:" <= card.id) && AllPlaced(home, card, history)
    ensures AllPlaced(home, card, Drag(history, card.id, events))
    decreases |events|
  {
    if events != [] {
      StepKeepsPlaced(home, card, history, events[0]);
      DragKeepsPlaced(home, card, Step(history, card.id, events[0]), events[1..]);
    }
  }

  lemma IdIsIn(cards: seq<Card>, c: Card)
    requires c in cards
    ensures c.id in Ids(cards)
  {
    var i := IndexOf(cards, c);
    assert Ids(cards)[i] == c.id;
  }

  lemma {:induction false} OthersAreThere(cards: seq<Card>, id: CardId)
    ensures forall c <- Others(cards, id) :: c in cards
  {
    if cards != [] { OthersAreThere(cards[1..], id); }
  }

  lemma {:induction false} OthersAreDistinct(cards: seq<Card>, id: CardId)
    requires Distinct(Ids(cards))
    ensures Distinct(Ids(Others(cards, id)))
  {
    if cards != [] {
      var rest := Others(cards[1..], id);
      assert Ids(cards[1..]) == Ids(cards)[1..];
      OthersAreDistinct(cards[1..], id);
      OthersAreThere(cards[1..], id);
      forall c <- rest ensures c.id != cards[0].id {
        IdIsIn(cards[1..], c);
        var j := IndexOf(Ids(cards[1..]), c.id);
        assert Ids(cards)[j + 1] != Ids(cards)[0];
      }
    }
  }

  lemma WithoutIsColumn(home: Columns, id: CardId, k: StatusId)
    requires Tidy(home) && k != ""
    ensures ColumnOf(k, Without(home, id, k))
  {
    if k in home.at {
      OthersAreThere(home.at[k], id);
      OthersAreDistinct(home.at[k], id);
    }
  }

  lemma WithoutAreApart(home: Columns, id: CardId, k: StatusId, l: StatusId)
    requires Tidy(home) && k != l
    ensures Apart(Without(home, id, k), Without(home, id, l))
  {
    if k in home.at && l in home.at {
      OthersAreThere(home.at[k], id);
      OthersAreThere(home.at[l], id);
      var mine, theirs := Without(home, id, k), Without(home, id, l);
      forall x <- Ids(mine) ensures x !in Ids(theirs) {
        var c := mine[IndexOf(Ids(mine), x)];
        IdIsIn(home.at[k], c);
        if x in Ids(theirs) {
          IdIsIn(home.at[l], theirs[IndexOf(Ids(theirs), x)]);
          assert false;
        }
      }
    }
  }

  lemma IdsOfPut(cards: seq<Card>, i: nat, card: Card)
    requires i <= |cards|
    ensures Ids(Put(cards, i, card)) == Put(Ids(cards), i, card.id)
  {}

  lemma PutIsColumn(rest: seq<Card>, i: nat, card: Card)
    requires i <= |rest| && ColumnOf(card.status, rest) && card.id !in Ids(rest) && !("col:" <= card.id)
    ensures ColumnOf(card.status, Put(rest, i, card))
  {
    PutIsDistinct(Ids(rest), i, card.id);
    IdsOfPut(rest, i, card);
  }

  lemma PutIsApart(rest: seq<Card>, i: nat, card: Card, other: seq<Card>)
    requires i <= |rest| && Apart(rest, other) && Apart(other, rest) && card.id !in Ids(other)
    ensures Apart(Put(rest, i, card), other) && Apart(other, Put(rest, i, card))
  {
    var all := Put(rest, i, card);
    assert forall a :: 0 <= a < |all| && a != i ==> Ids(all)[a] == Ids(rest)[if a < i then a else a - 1];
  }

  /** Wherever the card is placed, the columns are still a partition of the cards into their statuses. */
  lemma PlacedIsTidy(home: Columns, card: Card, cols: Columns, s: StatusId, i: nat)
    requires Tidy(home) && !("col:" <= card.id) && Placed(home, card, cols, s, i)
    ensures Tidy(cols)
  {
    var there := card.(status := s);
    forall k <- cols.at ensures ColumnOf(k, cols.at[k]) {
      WithoutIsColumn(home, card.id, k);
      if k == s { PutIsColumn(Without(home, card.id, s), i, there); }
    }
    forall k, l | k in cols.at && l in cols.at && k != l ensures Apart(cols.at[k], cols.at[l]) {
      WithoutAreApart(home, card.id, k, l);
      WithoutAreApart(home, card.id, l, k);
      if k == s { PutIsApart(Without(home, card.id, k), i, there, Without(home, card.id, l)); }
      if l == s { PutIsApart(Without(home, card.id, l), i, there, Without(home, card.id, k)); }
    }
  }

  /** A drag starts on a card of the server's board. */
  ghost predicate DragFrom(board: BoardData, home: Columns, origin: StatusId, i0: nat, card: Card) {
    WellFormed(board) && home == ToColumns(board) && origin in home.at && i0 < |home.at[origin]|
        && card == home.at[origin][i0]
  }

  lemma DragIsFromHome(board: BoardData, home: Columns, origin: StatusId, i0: nat, card: Card)
    requires DragFrom(board, home, origin, i0, card)
    ensures Tidy(home) && HasColumns(home, board) && origin != "" && !("col:" <= card.id)
    ensures Placed(home, card, home, origin, i0) && card == card.(status := origin)
  {
    HomeIsTidy(board);
    StartIsPlaced(home, origin, i0);
    assert ColumnOf(origin, home.at[origin]);
    assert card in home.at[origin];
  }

  /** The columns are a partition of the board's cards into their statuses: without the dragged card every
      column is the board's, and the dragged card is there once, showing the status of its column. */
  ghost predicate Repartitioned(home: Columns, card: Card, cols: Columns) {
    && Tidy(cols) && (forall s <- home.at :: s in cols.at)
    && (forall s <- cols.at :: Others(cols.at[s], card.id) == Without(home, card.id, s))
    && (exists s :: s in cols.at && card.(status := s) in cols.at[s])
  }

  lemma PlacedIsRepartitioned(home: Columns, card: Card, cols: Columns, s: StatusId, i: nat)
    requires Tidy(home) && !("col:" <= card.id) && Placed(home, card, cols, s, i)
    ensures Repartitioned(home, card, cols)
  {
    PlacedIsTidy(home, card, cols, s, i);
    PlacedIsFound(home, card, cols, s, i);
    forall t <- home.at ensures t in cols.at { ExtendsAt(home, cols, t); }
    forall t <- cols.at ensures Others(cols.at[t], card.id) == Without(home, card.id, t) {
      if t == s { assert cols.at[t] == cols.at[s]; }
    }
    assert s in cols.at && card.(status := s) in cols.at[s];
  }

  /** Through any drag, from any card of any board, whatever the pointer is over and however late the
      handlers run. */
  lemma DragKeepsThePartition(board: BoardData, home: Columns, origin: StatusId, i0: nat, card: Card, events: seq<Over>)
    requires DragFrom(board, home, origin, i0, card) && !("col:" <= card.id)
    ensures forall cols <- Drag([home], card.id, events) :: Repartitioned(home, card, cols)
  {
    DragIsFromHome(board, home, origin, i0, card);
    assert AllPlaced(home, card, [home]);
    DragKeepsPlaced(home, card, [home], events);
    forall cols <- Drag([home], card.id, events) ensures Repartitioned(home, card, cols) {
      assert PlacedSomewhere(home, card, cols);
      var s, i :| Placed(home, card, cols, s, i);
      PlacedIsRepartitioned(home, card, cols, s, i);
    }
  }

  // ----------------------------------------------------------------------------- drop

  lemma ShiftPuts(home: Columns, card: Card, prev: Columns, s: StatusId, i: nat, to: StatusId, over: string, j: nat)
    requires Placed(home, card, prev, s, i) && !("col:" <= card.id) && to != s
    requires var found := IndexOf(Ids(Without(home, card.id, to)), over);
             j == if found >= 0 then found else |Without(home, card.id, to)|
    ensures Shift(prev, s, to, card.id, over).at[to] == Put(Without(home, card.id, to), j, card.(status := to))
  {
    PlacedIsFound(home, card, prev, s, i);
    if to in home.at { ExtendsAt(home, prev, to); }
    assert (if to in prev.at then prev.at[to] else []) == Without(home, card.id, to);
  }

  /** The card is out of the column it was in and at this index of that one, showing its status; every other
      column is what it was. */
  ghost predicate MovedTo(home: Columns, card: Card, prev: Columns, s: StatusId, to: StatusId, j: nat, next: Columns) {
    && s in next.at && next.at[s] == Without(home, card.id, s)
    && j <= |Without(home, card.id, to)|
    && to in next.at && next.at[to] == Put(Without(home, card.id, to), j, card.(status := to))
    && next.at.Keys == prev.at.Keys + {to}
    && (forall k <- prev.at :: k != s && k != to ==> k in next.at && next.at[k] == prev.at[k])
  }

  lemma ShiftLeaves(prev: Columns, s: StatusId, to: StatusId, id: CardId, over: string)
    requires s in prev.at && to != s && id in Ids(prev.at[s])
    ensures var next := Shift(prev, s, to, id, over);
      && next.at.Keys == prev.at.Keys + {to} && next.at[s] == Others(prev.at[s], id)
      && forall k <- prev.at :: k != s && k != to ==> next.at[k] == prev.at[k]
  {
    hide Others, Ids, Put, IndexOf;
  }

  lemma ShiftMoves(home: Columns, card: Card, prev: Columns, s: StatusId, i: nat, to: StatusId, over: string, j: nat)
    requires Placed(home, card, prev, s, i) && !("col:" <= card.id) && to != s
    requires var found := IndexOf(Ids(Without(home, card.id, to)), over);
             j == if found >= 0 then found else |Without(home, card.id, to)|
    ensures MovedTo(home, card, prev, s, to, j, Shift(prev, s, to, card.id, over))
  {
    assert s in prev.at;
    hide Placed, Shift, FindStatus, Put, Others;
    ShiftPuts(home, card, prev, s, i, to, over, j);
    PlacedIsFound(home, card, prev, s, i);
    ShiftLeaves(prev, s, to, card.id, over);
  }

  lemma HoverMoves(seen: Columns, prev: Columns, id: CardId, over: string, s: StatusId, to: StatusId)
    requires IsObject(seen) && seen.at.Keys <= prev.at.Keys && !("col:" <= id) && s in prev.at
    requires FindStatus(seen, id) == Some(s) && FindStatus(seen, over) == Some(to) && s != to && s != "" && to != ""
    ensures DragOver(seen, prev, id, Some(over)) == Shift(prev, s, to, id, over)
  {
    hide FindStatus, Shift, IsObject;
    assert Hover(seen, id, over) == Some((s, to));
  }

  lemma ColumnIsFound(cols: Columns, to: StatusId)
    requires IsObject(cols)
    ensures FindStatus(cols, "col:" + to) == Some(to)
  {
    var over := "col:" + to;
    assert over[..4] == "col:" && over[4..] == to;
  }

  lemma NoColumnIsACard(k: StatusId, cards: seq<Card>, over: string)
    requires ColumnOf(k, cards) && "col:" <= over
    ensures over !in Ids(cards)
  {
    forall i | 0 <= i < |cards| ensures Ids(cards)[i] != over { assert cards[i] in cards; }
  }

  /** Over another column the card goes last into it, be it empty or not there yet. `seen` is the render that
      made the handler, in which the card was in the column where it still is. */
  lemma OverAColumn(home: Columns, card: Card, seen: Columns, prev: Columns, s: StatusId, i0: nat, i: nat, to: StatusId)
    requires Tidy(home) && !("col:" <= card.id) && IsObject(seen) && seen.at.Keys <= prev.at.Keys
    requires Placed(home, card, seen, s, i0) && Placed(home, card, prev, s, i) && to != s && to != ""
    ensures MovedTo(home, card, prev, s, to, |Without(home, card.id, to)|,
                    DragOver(seen, prev, card.id, Some("col:" + to)))
  {
    assert s in prev.at && s != "";
    hide Tidy, Placed, FindStatus, DragOver, Shift, MovedTo, Without;
    var over, target := "col:" + to, Without(home, card.id, to);
    PlacedIsFound(home, card, seen, s, i0);
    ColumnIsFound(seen, to);
    HoverMoves(seen, prev, card.id, over, s, to);
    WithoutIsColumn(home, card.id, to);
    NoColumnIsACard(to, target, over);
    ShiftMoves(home, card, prev, s, i, to, over, |target|);
  }

  /** Of all columns, a card is in this one. */
  lemma CardIsHeld(cols: Columns, k: StatusId, j: nat)
    requires Tidy(cols) && k in cols.at && j < |cols.at[k]|
    ensures FindStatus(cols, cols.at[k][j].id) == Some(k) && IndexOf(Ids(cols.at[k]), cols.at[k][j].id) == j
    ensures k != ""
  {
    var id := cols.at[k][j].id;
    assert ColumnOf(k, cols.at[k]) && cols.at[k][j] in cols.at[k];
    assert Ids(cols.at[k])[j] == id;
    IndexIsUnique(Ids(cols.at[k]), j);
    assert k in cols.keys;
    var h := Holder(cols, cols.keys, id);
    assert h.Some? && h.value in cols.at;
    assert h.value != k ==> Apart(cols.at[k], cols.at[h.value]);
  }

  lemma SameOtherwise(home: Columns, card: Card, seen: Columns, prev: Columns, s: StatusId, i0: nat, i: nat,
                      k: StatusId)
    requires Placed(home, card, seen, s, i0) && Placed(home, card, prev, s, i) && k != s
    ensures k in seen.at && k in prev.at ==> seen.at[k] == prev.at[k]
    ensures k in prev.at ==> prev.at[k] == Without(home, card.id, k)
    ensures k in prev.at && prev.at[k] != [] ==> k in seen.at
  {
    if k in home.at { ExtendsAt(home, seen, k); }
  }

  /** Over a card of another column it goes right above that card. */
  lemma OverACard(home: Columns, card: Card, seen: Columns, prev: Columns, s: StatusId, i0: nat, i: nat, to: StatusId,
                  j: nat)
    requires Tidy(home) && !("col:" <= card.id) && IsObject(seen) && seen.at.Keys <= prev.at.Keys
    requires Placed(home, card, seen, s, i0) && Placed(home, card, prev, s, i)
    requires to in prev.at && to != s && j < |prev.at[to]|
    ensures MovedTo(home, card, prev, s, to, j, DragOver(seen, prev, card.id, Some(prev.at[to][j].id)))
  {
    assert s in prev.at && s != "";
    hide Tidy, Placed, FindStatus, DragOver, Shift, MovedTo, Without;
    SameOtherwise(home, card, seen, prev, s, i0, i, to);
    PlacedIsTidy(home, card, seen, s, i0);
    CardIsHeld(seen, to, j);
    PlacedIsFound(home, card, seen, s, i0);
    HoverMoves(seen, prev, card.id, prev.at[to][j].id, s, to);
    ShiftMoves(home, card, prev, s, i, to, prev.at[to][j].id, j);
  }

  /** What is found under the pointer, if it is neither another column nor a card in one. */
  lemma NothingElseIsFound(cols: Columns, s: StatusId, over: string)
    requires IsObject(cols) && ("col:" <= over ==> over[4..] == s || over[4..] == "")
    requires forall k <- cols.at :: k != s ==> over !in Ids(cols.at[k])
    ensures FindStatus(cols, over) == None || FindStatus(cols, over) == Some(s) || FindStatus(cols, over) == Some("")
  {
    if !("col:" <= over) {
      var h := Holder(cols, cols.keys, over);
      assert h.Some? ==> h.value in cols.at;
    }
  }

  /** Over nothing, over its own column or a card in it, and over anything that is neither a column nor a card,
      it stays where it is. */
  lemma OverNothing(home: Columns, card: Card, seen: Columns, prev: Columns, s: StatusId, i0: nat, i: nat, over: string)
    requires !("col:" <= card.id) && IsObject(seen) && seen.at.Keys <= prev.at.Keys
    requires Placed(home, card, seen, s, i0) && Placed(home, card, prev, s, i)
    requires "col:" <= over ==> over[4..] == s || over[4..] == ""
    requires forall k <- prev.at :: k != s ==> over !in Ids(prev.at[k])
    ensures DragOver(seen, prev, card.id, Some(over)) == prev
  {
    hide Placed, FindStatus, Shift, Without, Ids;
    PlacedIsFound(home, card, seen, s, i0);
    forall k | k in seen.at && k != s ensures over !in Ids(seen.at[k]) {
      SameOtherwise(home, card, seen, prev, s, i0, i, k);
    }
    NothingElseIsFound(seen, s, over);
  }

  /** And once another handler has moved it on, a late one does nothing. */
  lemma OverTooLate(home: Columns, card: Card, seen: Columns, prev: Columns, s0: StatusId, i0: nat, s: StatusId, i: nat,
                    over: Option<string>)
    requires !("col:" <= card.id) && IsObject(seen) && seen.at.Keys <= prev.at.Keys && s0 != s
    requires Placed(home, card, seen, s0, i0) && Placed(home, card, prev, s, i)
    ensures DragOver(seen, prev, card.id, over) == prev
  {
    if over.Some? && Hover(seen, card.id, over.value).Some? {
      HoverIsFrom(home, card, seen, s0, i0, over.value);
      ShiftMisses(home, card, prev, s, i, s0, Hover(seen, card.id, over.value).value.1, over.value);
    }
  }

  /** Over another column, ... */
  ghost predicate GoesLast(home: Columns, card: Card, prev: Columns, s: StatusId, x: string, next: Columns) {
    "col:" <= x && x[4..] != s && x[4..] != "" ==>
      MovedTo(home, card, prev, s, x[4..], |Without(home, card.id, x[4..])|, next)
  }

  /** ... over a card of another column, ... */
  ghost predicate GoesAbove(home: Columns, card: Card, prev: Columns, s: StatusId, x: string, next: Columns) {
    forall to <- prev.at, j | to != s && 0 <= j < |prev.at[to]| && prev.at[to][j].id == x ::
      MovedTo(home, card, prev, s, to, j, next)
  }

  /** ... and over anything else. */
  ghost predicate GoesNowhere(prev: Columns, s: StatusId, x: string, next: Columns) {
    && ("col:" <= x ==> x[4..] == s || x[4..] == "")
    && (forall k <- prev.at :: k != s ==> x !in Ids(prev.at[k]))
    ==> next == prev
  }

  /** What a handler does with the card in column `s`, which was in `s0` when the handler was made. */
  ghost predicate Goes(home: Columns, card: Card, prev: Columns, s0: StatusId, s: StatusId, over: Option<string>,
                       next: Columns)
  {
    if over == None || s0 != s then next == prev
    else
      && GoesLast(home, card, prev, s, over.value, next) && GoesAbove(home, card, prev, s, over.value, next)
      && GoesNowhere(prev, s, over.value, next)
  }

  lemma OverGoesLast(home: Columns, card: Card, seen: Columns, prev: Columns, s: StatusId, i0: nat, i: nat, x: string)
    requires Tidy(home) && !("col:" <= card.id) && IsObject(seen) && seen.at.Keys <= prev.at.Keys
    requires Placed(home, card, seen, s, i0) && Placed(home, card, prev, s, i)
    ensures GoesLast(home, card, prev, s, x, DragOver(seen, prev, card.id, Some(x)))
  {
    hide Tidy, Placed, DragOver, MovedTo, Without, IsObject;
    if "col:" <= x && x[4..] != s && x[4..] != "" {
      assert x == "col:" + x[4..];
      OverAColumn(home, card, seen, prev, s, i0, i, x[4..]);
    }
  }

  lemma OverGoesAbove(home: Columns, card: Card, seen: Columns, prev: Columns, s: StatusId, i0: nat, i: nat, x: string)
    requires Tidy(home) && !("col:" <= card.id) && IsObject(seen) && seen.at.Keys <= prev.at.Keys
    requires Placed(home, card, seen, s, i0) && Placed(home, card, prev, s, i)
    ensures GoesAbove(home, card, prev, s, x, DragOver(seen, prev, card.id, Some(x)))
  {
    hide Tidy, Placed, DragOver, MovedTo, Without, IsObject;
    var next := DragOver(seen, prev, card.id, Some(x));
    forall to, j | to in prev.at && to != s && 0 <= j < |prev.at[to]| && prev.at[to][j].id == x
      ensures MovedTo(home, card, prev, s, to, j, next)
    {
      OverACard(home, card, seen, prev, s, i0, i, to, j);
    }
  }

  lemma OverGoesNowhere(home: Columns, card: Card, seen: Columns, prev: Columns, s: StatusId, i0: nat, i: nat,
                        x: string)
    requires !("col:" <= card.id) && IsObject(seen) && seen.at.Keys <= prev.at.Keys
    requires Placed(home, card, seen, s, i0) && Placed(home, card, prev, s, i)
    ensures GoesNowhere(prev, s, x, DragOver(seen, prev, card.id, Some(x)))
  {
    hide Placed, DragOver, Ids, IsObject;
    if ("col:" <= x ==> x[4..] == s || x[4..] == "") && (forall k <- prev.at :: k != s ==> x !in Ids(prev.at[k])) {
      OverNothing(home, card, seen, prev, s, i0, i, x);
    }
  }

  lemma OverNone(seen: Columns, prev: Columns, id: CardId)
    requires IsObject(seen) && seen.at.Keys <= prev.at.Keys && !("col:" <= id)
    ensures DragOver(seen, prev, id, None) == prev
  {}

  lemma OverGoes(home: Columns, card: Card, seen: Columns, prev: Columns, s0: StatusId, i0: nat, s: StatusId, i: nat,
                 over: Option<string>)
    requires Tidy(home) && !("col:" <= card.id) && IsObject(seen) && seen.at.Keys <= prev.at.Keys
    requires Placed(home, card, seen, s0, i0) && Placed(home, card, prev, s, i)
    ensures Goes(home, card, prev, s0, s, over, DragOver(seen, prev, card.id, over))
  {
    hide Tidy, Placed, DragOver, GoesLast, GoesAbove, GoesNowhere, IsObject;
    OverNone(seen, prev, card.id);
    if s0 != s {
      OverTooLate(home, card, seen, prev, s0, i0, s, i, over);
    } else if over.Some? {
      assert over == Some(over.value);
      OverGoesLast(home, card, seen, prev, s, i0, i, over.value);
      OverGoesAbove(home, card, seen, prev, s, i0, i, over.value);
      OverGoesNowhere(home, card, seen, prev, s, i0, i, over.value);
    }
  }

  /** A drop over a card of its own column takes that card's index; any other drop leaves it where it is. */
  lemma LandingTakesTheIndex(home: Columns, card: Card, cols: Columns, s: StatusId, i: nat, over: string)
    requires Placed(home, card, cols, s, i) && !("col:" <= card.id) && FindStatus(cols, card.id) == Some(s)
    requires Distinct(Ids(cols.at[s]))
    ensures var (status, ordered) := Landing(cols, card.id, over);
            && status == s && card.id in ordered
            && IndexOf(ordered, card.id) == (if over in Ids(cols.at[s]) then IndexOf(Ids(cols.at[s]), over) else i)
  {
    PlacedIsFound(home, card, cols, s, i);
    var j := LandingIsPut(home, card, cols, s, i, over);
    var rest, there := Without(home, card.id, s), card.(status := s);
    PutIsFound(rest, j, there);
    IdsOfPut(rest, j, there);
  }

  /** A drop rearranges one column, and in it only the dragged card. */
  lemma LandingIsPut(home: Columns, card: Card, cols: Columns, s: StatusId, i: nat, over: string) returns (j: nat)
    requires Placed(home, card, cols, s, i) && !("col:" <= card.id)
    requires FindStatus(cols, card.id) == Some(s)
    ensures j <= |Without(home, card.id, s)|
    ensures j == if over in Ids(cols.at[s]) then IndexOf(Ids(cols.at[s]), over) else i
    ensures Landing(cols, card.id, over) == (s, Ids(Put(Without(home, card.id, s), j, card.(status := s))))
  {
    PlacedIsFound(home, card, cols, s, i);
    var rest, there := Without(home, card.id, s), card.(status := s);
    var ordered := Ids(cols.at[s]);
    IdsOfPut(rest, i, there);
    assert Dropped(ordered, i) == Ids(rest) && ordered[i] == card.id;
    var overIndex := IndexOf(ordered, over);
    j := if overIndex >= 0 && i != overIndex then SpliceStart(overIndex, |rest|) else i;
    IdsOfPut(rest, j, there);
  }

  lemma ServerIndexIs(board: BoardData, n: nat, id: CardId)
    requires WellFormed(board) && n < |board|
    ensures ServerIndex(board, board[n].status, id) == IndexOf(Ids(board[n].cards), id)
  {
    if n > 0 {
      assert board[0].status != board[n].status;
      assert forall i :: 0 <= i < |board[1..]| ==> board[1..][i] == board[i + 1];
      ServerIndexIs(board[1..], n - 1, id);
    }
  }

  lemma PutIsInjective(rest: seq<Card>, i: nat, j: nat, card: Card)
    requires i <= |rest| && j <= |rest| && card.id !in Ids(rest)
    ensures Ids(Put(rest, i, card)) == Ids(Put(rest, j, card)) <==> i == j
  {
    PutIsFound(rest, i, card);
    PutIsFound(rest, j, card);
  }

  lemma SendsByIndex(cols: Columns, board: BoardData, origin: StatusId, id: CardId, s: StatusId, ordered: seq<CardId>,
                     over: string, extras: Option<string>)
    requires IsObject(cols) && !("col:" <= id) && FindStatus(cols, id) == Some(s) && s != "" && origin != ""
    requires Landing(cols, id, over) == (s, ordered)
    ensures var out := DragEnd(cols, board, Some(origin), id, Some(over), Some(extras));
            !out.Ignored? && (out.Sent? <==> s != origin || IndexOf(ordered, id) != ServerIndex(board, s, id))
    ensures s != origin ==> DragEnd(cols, board, Some(origin), id, Some(over), None).Restored?
  {}

  lemma HomeIndex(board: BoardData, home: Columns, origin: StatusId, i0: nat, card: Card)
    requires DragFrom(board, home, origin, i0, card)
    ensures ServerIndex(board, origin, card.id) == i0
    ensures i0 <= |Without(home, card.id, origin)|
    ensures home.at[origin] == Put(Without(home, card.id, origin), i0, card)
  {
    DragIsFromHome(board, home, origin, i0, card);
    PlacedIsFound(home, card, home, origin, i0);
    assert origin in home.keys;
    ServerIndexIs(board, IndexOf(home.keys, origin), card.id);
  }

  /** While the server's board does not change, a drop sends a move exactly when the card lands in
      another column or its column in another order; and it is never ignored. Cancelling the dialog of
      the target status takes the move back. */
  lemma DropSendsIff(board: BoardData, home: Columns, origin: StatusId, i0: nat, card: Card,
                     cols: Columns, s: StatusId, i: nat, over: string, extras: Option<string>)
    requires DragFrom(board, home, origin, i0, card) && Placed(home, card, cols, s, i)
    requires !("col:" <= card.id)
    ensures FindStatus(cols, card.id) == Some(s)
    ensures var out := DragEnd(cols, board, Some(origin), card.id, Some(over), Some(extras));
            !out.Ignored? && (out.Sent? <==> Landing(cols, card.id, over) != (origin, Ids(home.at[origin])))
    ensures s != origin ==> DragEnd(cols, board, Some(origin), card.id, Some(over), None).Restored?
  {
    DragIsFromHome(board, home, origin, i0, card);
    PlacedIsFound(home, card, cols, s, i);
    var j := LandingIsPut(home, card, cols, s, i, over);
    var rest, there := Without(home, card.id, s), card.(status := s);
    SendsByIndex(cols, board, origin, card.id, s, Ids(Put(rest, j, there)), over, extras);
    PutIsFound(rest, j, there);
    if s == origin {
      HomeIndex(board, home, origin, i0, card);
      PutIsInjective(rest, i0, j, card);
    }
  }

  lemma {:induction false} LastIsUnique(cards: seq<Card>, c: Card)
    requires Distinct(Ids(cards)) && c in cards
    ensures LastOf(cards, c.id) == Some(c)
  {
    IdIsIn(cards, c);
    var last := LastOf(cards, c.id);
    if last.Some? {
      var a, b := IndexOf(cards, c), IndexOf(cards, last.value);
      assert Ids(cards)[a] == Ids(cards)[b];
    }
  }

  lemma NotElsewhere(cols: Columns, k: StatusId, other: StatusId, c: Card)
    requires Tidy(cols) && k in cols.at && other in cols.at && k != other && c in cols.at[k]
    ensures LastOf(cols.at[other], c.id) == None
  {
    IdIsIn(cols.at[k], c);
    assert Apart(cols.at[k], cols.at[other]);
    var found := LastOf(cols.at[other], c.id);
    if found.Some? { IdIsIn(cols.at[other], found.value); }
  }

  lemma CardByIdStep(cols: Columns, n: nat, id: CardId)
    requires 0 < n <= |cols.keys| && forall k <- cols.keys[..n] :: k in cols.at
    ensures cols.keys[n - 1] in cols.at && forall k <- cols.keys[..n - 1] :: k in cols.at
    ensures var last := LastOf(cols.at[cols.keys[n - 1]], id);
            CardById(cols, cols.keys[..n], id) == if last.Some? then last else CardById(cols, cols.keys[..n - 1], id)
  {
    var keys := cols.keys[..n];
    assert keys[n - 1] == cols.keys[n - 1] && keys[n - 1] in keys;
    assert keys[..n - 1] == cols.keys[..n - 1];
    assert forall k <- cols.keys[..n - 1] :: k in keys;
  }

  lemma {:induction false} CardIsFound(cols: Columns, n: nat, k: StatusId, c: Card)
    requires Tidy(cols) && n <= |cols.keys| && k in cols.keys[..n] && k in cols.at && c in cols.at[k]
    requires forall key <- cols.keys[..n] :: key in cols.at
    ensures CardById(cols, cols.keys[..n], c.id) == Some(c)
  {
    CardByIdStep(cols, n, c.id);
    var last := cols.keys[n - 1];
    if last == k {
      assert ColumnOf(k, cols.at[k]);
      LastIsUnique(cols.at[k], c);
    } else {
      NotElsewhere(cols, k, last, c);
      assert k in cols.keys[..n - 1];
      CardIsFound(cols, n - 1, k, c);
    }
  }

  lemma {:induction false} CardsAreFound(cols: Columns, k: StatusId, cards: seq<Card>)
    requires Tidy(cols) && k in cols.at && forall c <- cards :: c in cols.at[k]
    ensures CardsById(cols, Ids(cards)) == cards
  {
    if cards != [] {
      assert cards[0] in cards && forall c <- cards[1..] :: c in cards;
      assert Ids(cards)[1..] == Ids(cards[1..]);
      assert cols.keys[..|cols.keys|] == cols.keys;
      CardIsFound(cols, |cols.keys|, k, cards[0]);
      CardsAreFound(cols, k, cards[1..]);
    }
  }

  lemma SentIs(cols: Columns, board: BoardData, origin: StatusId, id: CardId, s: StatusId, ordered: seq<CardId>,
               over: string, extras: Option<Option<string>>)
    requires IsObject(cols) && !("col:" <= id) && FindStatus(cols, id) == Some(s) && s != "" && origin != ""
    requires Landing(cols, id, over) == (s, ordered)
    ensures var out := DragEnd(cols, board, Some(origin), id, Some(over), extras);
            !out.Ignored? && (out.Sent? ==>
              && out.shown == Assign(cols, s, CardsById(cols, ordered))
              && Asks(out.request, id, s, origin, ordered, extras))
  {}

  /** The request moves the card to where it landed: to another status only if it is another, with what the
      dialog of that status answered, and between the cards it landed between. */
  ghost predicate Asks(r: MoveRequest, id: CardId, s: StatusId, origin: StatusId, ordered: seq<CardId>,
      extras: Option<Option<string>>) {
    && r.id == id && r.place == Neighbours(ordered, id)
    && r.to == (if s == origin then None else Some(s))
    && (if s == origin then r.resolution == None else extras == Some(r.resolution))
  }

  lemma ShownIsPlaced(home: Columns, card: Card, cols: Columns, s: StatusId, i: nat, j: nat)
    requires Tidy(home) && !("col:" <= card.id) && Placed(home, card, cols, s, i)
    requires j <= |Without(home, card.id, s)|
    ensures var landed := Ids(Put(Without(home, card.id, s), j, card.(status := s)));
            Placed(home, card, Assign(cols, s, CardsById(cols, landed)), s, j)
  {
    var rest, there := Without(home, card.id, s), card.(status := s);
    var landed := Put(rest, j, there);
    PlacedIsTidy(home, card, cols, s, i);
    forall c <- landed ensures c in cols.at[s] {
      if c == there { assert cols.at[s][i] == there; } else { assert c in rest; InPut(rest, i, there, c); }
    }
    CardsAreFound(cols, s, landed);
    AssignExtends(home, cols, s, landed);
  }

  lemma InPut(rest: seq<Card>, i: nat, card: Card, c: Card)
    requires i <= |rest| && c in rest
    ensures c in Put(rest, i, card)
  {
    assert rest == rest[..i] + rest[i..];
    assert Put(rest, i, card) == rest[..i] + [card] + rest[i..];
  }

  /** A move asks for the place the card landed in, and the columns shown until the server answers have
      it there: the landing order in its column, and every other card where it was. */
  lemma SentShowsTheLanding(board: BoardData, home: Columns, origin: StatusId, card: Card,
                            cols: Columns, s: StatusId, i: nat, over: string, extras: Option<Option<string>>)
      returns (j: nat)
    requires Tidy(home) && origin != "" && !("col:" <= card.id) && Placed(home, card, cols, s, i)
    ensures FindStatus(cols, card.id) == Some(s)
    ensures var out := DragEnd(cols, board, Some(origin), card.id, Some(over), extras);
            var ordered := Landing(cols, card.id, over).1;
            !out.Ignored? && (out.Sent? ==>
              && Placed(home, card, out.shown, s, j) && Ids(out.shown.at[s]) == ordered
              && Asks(out.request, card.id, s, origin, ordered, extras))
  {
    PlacedIsFound(home, card, cols, s, i);
    j := LandingIsPut(home, card, cols, s, i, over);
    var landed := Put(Without(home, card.id, s), j, card.(status := s));
    SentIs(cols, board, origin, card.id, s, Ids(landed), over, extras);
    ShownIsPlaced(home, card, cols, s, i, j);
  }

  lemma CachedColumns(board: BoardData, shown: Columns)
    requires forall c <- board :: c.status in shown.at
    ensures forall i :: 0 <= i < |board| ==>
              board[i].status in shown.at && CachedBoard(board, shown)[i]
                  == Column(board[i].status, shown.at[board[i].status])
  {
    forall i | 0 <= i < |board| ensures board[i].status in shown.at { assert board[i] in board; }
  }

  lemma SameKeys(cols: Columns, others: Columns)
    requires IsObject(cols) && IsObject(others) && cols.keys == others.keys
    ensures cols.at.Keys == others.at.Keys
  {
    forall s ensures s in cols.at <==> s in others.at {
      assert s in cols.at <==> s in cols.keys;
    }
  }

  lemma CachedIsWellFormed(board: BoardData, shown: Columns)
    requires WellFormed(board) && Tidy(shown) && forall c <- board :: c.status in shown.at
    ensures WellFormed(CachedBoard(board, shown))
  {
    CachedColumns(board, shown);
  }

  /** The cached board after an optimistic update is a board like the server's, and what it makes the
      page show is what the drop showed: so the next drag starts from where this one ended. */
  lemma CacheShowsTheDrop(board: BoardData, shown: Columns)
    requires WellFormed(board) && Tidy(shown) && forall c <- board :: c.status in shown.at
    ensures WellFormed(CachedBoard(board, shown))
    ensures var again := ToColumns(CachedBoard(board, shown));
            && again.at.Keys == ToColumns(board).at.Keys
            && forall s <- again.at :: s in shown.at && again.at[s] == shown.at[s]
  {
    var cached := CachedBoard(board, shown);
    CachedColumns(board, shown);
    CachedIsWellFormed(board, shown);
    HomeIsTidy(board);
    HomeIsTidy(cached);
    var home, again := ToColumns(board), ToColumns(cached);
    assert again.keys == home.keys;
    SameKeys(again, home);
    forall s <- again.at ensures s in shown.at && again.at[s] == shown.at[s] {
      assert again.keys[IndexOf(again.keys, s)] == s;
    }
  }

  /** From the start of a drag to its end: after any events, and with any of the columns rendered meanwhile,
      a drop sends a move if and only if the card lands elsewhere than where it was. */
  lemma DragAndDropSendsIff(board: BoardData, home: Columns, origin: StatusId, i0: nat, card: Card, events: seq<Over>,
                            cols: Columns, over: string, extras: Option<string>)
    requires DragFrom(board, home, origin, i0, card) && !("col:" <= card.id)
    requires cols in Drag([home], card.id, events)
    ensures Repartitioned(home, card, cols) && FindStatus(cols, card.id).Some?
    ensures DragEnd(cols, board, Some(origin), card.id, Some(over), Some(extras)).Sent?
       <==> Landing(cols, card.id, over) != (origin, Ids(home.at[origin]))
  {
    DragIsFromHome(board, home, origin, i0, card);
    assert AllPlaced(home, card, [home]);
    DragKeepsPlaced(home, card, [home], events);
    assert PlacedSomewhere(home, card, cols);
    var s, i :| Placed(home, card, cols, s, i);
    PlacedIsRepartitioned(home, card, cols, s, i);
    DropSendsIff(board, home, origin, i0, card, cols, s, i, over, extras);
  }

}
