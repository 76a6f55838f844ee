/** requirement_reorder of db/requirement/requirement_functions.sql: the position that puts a card
    between its neighbours, and the rebalance that makes room for one. */
module Reorder {
  import opened Wrappers
  import opened BoardOrder

  type Id = string

  /** What orders a card in its column. */
  datatype Row = Row(position: real, created: int)

  /** The rows with the space and status of the moved card, itself among them. */
  type Rows = map<Id, Row>

  const GAP := 0.000001
  const STRIDE := 1000.0

  /** ORDER BY board_position, created_at */
  predicate Before(a: Row, b: Row) {
    a.position < b.position || (a.position == b.position && a.created < b.created)
  }

  /** A list as the board's query returns it: any selection of the column, in order. */
  ghost predicate InOrder(rows: Rows, list: seq<Id>) {
    && (forall i :: 0 <= i < |list| ==> list[i] in rows)
    && (forall i, j :: 0 <= i < j < |list| ==> Before(rows[list[i]], rows[list[j]]))
  }

  /** row_number() in that order. Rows that tie are numbered in any way. */
  ghost predicate Numbers(rows: Rows, number: map<Id, nat>) {
    && number.Keys == rows.Keys
    && (forall x <- rows :: number[x] >= 1)
    && (forall x <- rows, y <- rows :: x != y ==> number[x] != number[y])
    && (forall x <- rows, y <- rows :: Before(rows[x], rows[y]) ==> number[x] < number[y])
  }

  function Rebalanced(rows: Rows, number: map<Id, nat>): Rows
    requires rows.Keys <= number.Keys
  {
    map x | x in rows :: Row(number[x] as real * STRIDE, rows[x].created)
  }

  /** The position of a neighbour: none without one, for the card itself, or for a card elsewhere. */
  function PositionOf(rows: Rows, id: Id, neighbour: Option<Id>): Option<real> {
    if neighbour.Some? && neighbour.value != id && neighbour.value in rows then Some(rows[neighbour.value].position)
        else None
  }

  const SCALE := 10000000000.0

  /** round(x, 10): to ten decimals, half away from zero. */
  function Round10(x: real): (r: real)
    ensures x - 0.5 / SCALE <= r <= x + 0.5 / SCALE
  {
    if x >= 0.0 then (x * SCALE + 0.5).Floor as real / SCALE
    else -((-x * SCALE + 0.5).Floor as real / SCALE)
  }

  predicate TooClose(above: Option<real>, below: Option<real>) {
    above.Some? && below.Some? && below.value - above.value < GAP
  }

  function NewPosition(above: Option<real>, below: Option<real>): real
    requires above.Some? || below.Some?
  {
    if above == None then below.value - STRIDE
    else if below == None then above.value + STRIDE
    else Round10((above.value + below.value) / 2.0)
  }

  function Placed(rows: Rows, id: Id, at: Between): Rows
    requires id in rows
  {
    var above, below := PositionOf(rows, id, at.above), PositionOf(rows, id, at.below);
    if above == None && below == None then rows
    else rows[id := rows[id].(position := NewPosition(above, below))]
  }

  predicate Crowded(rows: Rows, id: Id, at: Between) {
    TooClose(PositionOf(rows, id, at.above), PositionOf(rows, id, at.below))
  }

  function Reordered(rows: Rows, number: map<Id, nat>, id: Id, at: Between): Rows
    requires id in rows && rows.Keys <= number.Keys
  {
    Placed(if Crowded(rows, id, at) then Rebalanced(rows, number) else rows, id, at)
  }

  /** Rounding to ten decimals: a multiple of their unit, none nearer, and of two that are as near the one
      farther from zero. */
  lemma RoundsToTenDecimals(x: real)
    ensures var r := Round10(x);
            && r * 10000000000.0 == (r * 10000000000.0).Floor as real
            && -0.00000000005 <= r - x <= 0.00000000005
            && (r - x == 0.00000000005 ==> x >= 0.0) && (r - x == -0.00000000005 ==> x < 0.0)
  {
    var n := if x >= 0.0 then (x * SCALE + 0.5).Floor else -(-x * SCALE + 0.5).Floor;
    assert Round10(x) == n as real / SCALE;
  }

  /** The neighbour stands in the column, and is not the card itself. */
  ghost predicate IsThere(rows: Rows, id: Id, neighbour: Option<Id>) {
    neighbour.Some? && neighbour.value != id && neighbour.value in rows
  }

  // -------------------------------------------------------------------------- method

  /** The rows of one column, which the function updates in place. */
  class Table {
    var rows: Rows

    constructor (initial: Rows)
      ensures rows == initial
    {
      rows := initial;
    }

    /** `number` is what the window function of the rebalance would number the rows with. */
    method RequirementReorder(id: Id, at: Between, number: map<Id, nat>) returns (position: real)
      requires id in rows && rows.Keys <= number.Keys
      modifies this
      ensures rows == Reordered(old(rows), number, id, at) && rows.Keys == old(rows.Keys)
      ensures position == rows[id].position && rows[id].created == old(rows)[id].created
      ensures var above, below := IsThere(old(rows), id, at.above), IsThere(old(rows), id, at.below);
              && (!above && !below ==> rows == old(rows))
              && (!above && below ==> position == rows[at.below.value].position - 1000.0)
              && (above && !below ==> position == rows[at.above.value].position + 1000.0)
              && (above && below ==>
                    var middle := (rows[at.above.value].position + rows[at.below.value].position) / 2.0;
                    middle - 0.00000000005 <= position <= middle + 0.00000000005)
      ensures var crowded := IsThere(old(rows), id, at.above) && IsThere(old(rows), id, at.below)
                && old(rows)[at.below.value].position - old(rows)[at.above.value].position < 0.000001;
              forall x <- rows :: x != id ==>
                rows[x] == if crowded then Row(number[x] as real * 1000.0, old(rows)[x].created) else old(rows)[x]
    {
      var above: Option<real>, below: Option<real> := None, None;
      var i := 1;
      while i <= 2
        invariant 1 <= i <= 2
        invariant i == 1 ==> rows == old(rows)
        invariant i == 2 ==> Crowded(old(rows), id, at) && rows == Rebalanced(old(rows), number)
        decreases 2 - i
      {
        above, below := PositionOf(rows, id, at.above), PositionOf(rows, id, at.below);
        if above == None && below == None { return rows[id].position; }
        if TooClose(above, below) && i == 1 {
          rows := Rebalanced(rows, number);
          i := i + 1;
          continue;
        }
        break;
      }
      if above == None {
        position := below.value - STRIDE;
      } else if below == None {
        position := above.value + STRIDE;
      } else {
        position := Round10((above.value + below.value) / 2.0);
      }
      rows := rows[id := rows[id].(position := position)];
    }
  }

  // --------------------------------------------------------------------------- order

  /** The rebalance keeps every order and leaves a stride between any two cards. */
  lemma RebalanceKeepsOrder(rows: Rows, number: map<Id, nat>, x: Id, y: Id)
    requires Numbers(rows, number) && x in rows && y in rows && Before(rows[x], rows[y])
    ensures Rebalanced(rows, number)[x].position + STRIDE <= Rebalanced(rows, number)[y].position
  {
    assert number[x] + 1 <= number[y];
    Strides(number[x], number[y]);
  }

  lemma Strides(m: nat, n: nat)
    requires m + 1 <= n
    ensures m as real * STRIDE + STRIDE <= n as real * STRIDE
  {
    assert (m + 1) as real == m as real + 1.0;
    assert (m + 1) as real <= n as real;
  }

  lemma RebalancedInOrder(rows: Rows, number: map<Id, nat>, list: seq<Id>)
    requires Numbers(rows, number) && InOrder(rows, list)
    ensures InOrder(Rebalanced(rows, number), list)
  {
    forall i, j | 0 <= i < j < |list|
      ensures Before(Rebalanced(rows, number)[list[i]], Rebalanced(rows, number)[list[j]])
    {
      RebalanceKeepsOrder(rows, number, list[i], list[j]);
    }
  }

  /** Room between the neighbours is enough for the card to land between them, rounding included. */
  lemma PlacedInOrder(rows: Rows, ordered: seq<Id>, k: nat)
    requires Distinct(ordered) && k < |ordered| && ordered[k] in rows && InOrder(rows, Dropped(ordered, k))
    requires !Crowded(rows, ordered[k], Neighbours(ordered, ordered[k]))
    ensures InOrder(Placed(rows, ordered[k], Neighbours(ordered, ordered[k])), ordered)
  {
    var id := ordered[k];
    IndexIsUnique(ordered, k);
    var at := Neighbours(ordered, id);
    var rest := Dropped(ordered, k);
    var next := Placed(rows, id, at);
    forall i | 0 <= i < |ordered| && i != k
      ensures ordered[i] in rows && ordered[i] != id && next[ordered[i]] == rows[ordered[i]]
          && ordered[i] == rest[if i < k then i else i - 1]
    {
      assert rest[if i < k then i else i - 1] in rows;
    }
    forall i, j | 0 <= i < j < |ordered| ensures Before(next[ordered[i]], next[ordered[j]]) {
      if i != k && j != k {
        assert Before(rows[rest[if i < k then i else i - 1]], rows[rest[if j < k then j else j - 1]]);
      } else if j == k {
        assert rest[k - 1] == ordered[k - 1] && rows[ordered[k - 1]].position < next[id].position;
        assert i < k - 1 ==> Before(rows[rest[i]], rows[rest[k - 1]]);
      } else {
        assert rest[k] == ordered[k + 1] && next[id].position < rows[ordered[k + 1]].position;
        assert k + 1 < j ==> Before(rows[rest[k]], rows[rest[j - 1]]);
      }
    }
  }

  /** What the page asks for is what the server does: if the page's list, without the card, is in the
      order of the server's rows, then after the move the list with the card in it is, whether or not
      the column had to be rebalanced first. Rows that the list does not show may be anywhere. */
  lemma ReorderHonoursTheDrop(rows: Rows, number: map<Id, nat>, ordered: seq<Id>, id: Id)
    requires Numbers(rows, number) && id in rows && Distinct(ordered) && id in ordered
    requires InOrder(rows, Dropped(ordered, IndexOf(ordered, id)))
    ensures InOrder(Reordered(rows, number, id, Neighbours(ordered, id)), ordered)
  {
    var k, at := IndexOf(ordered, id), Neighbours(ordered, id);
    if Crowded(rows, id, at) {
      var rest, spread := Dropped(ordered, k), Rebalanced(rows, number);
      RebalancedInOrder(rows, number, rest);
      assert 0 < k < |ordered| - 1;
      assert rest[k - 1] == ordered[k - 1] && rest[k] == ordered[k + 1];
      RebalanceKeepsOrder(rows, number, rest[k - 1], rest[k]);
      assert !Crowded(spread, id, at);
      PlacedInOrder(spread, ordered, k);
    } else {
      PlacedInOrder(rows, ordered, k);
    }
  }

  /** Nothing else moves: any two other cards of the column, shown or not, keep their order, and without
      a rebalance every other row stays as it is. */
  lemma ReorderKeepsTheOthers(rows: Rows, number: map<Id, nat>, id: Id, at: Between, x: Id, y: Id)
    requires Numbers(rows, number) && id in rows && x in rows && y in rows && x != id && y != id
    ensures var next := Reordered(rows, number, id, at);
            && next.Keys == rows.Keys
            && (Before(rows[x], rows[y]) ==> Before(next[x], next[y]))
            && (!Crowded(rows, id, at) ==> next[x] == rows[x])
  {
    if Before(rows[x], rows[y]) { RebalanceKeepsOrder(rows, number, x, y); }
  }

}
