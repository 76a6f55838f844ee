/** The pages of internal/handlers/requirements.go: each is the answer to a query of its own, whose ORDER BY
    need not tell all rows apart. */
module Paging {

  /** Rows are told apart by their id. */
  type Row = int

  /** LIMIT and OFFSET of the rows that the condition selects, in their order. */
  function Page(rows: seq<Row>, limit: nat, offset: nat): (items: seq<Row>)
    ensures |items| == if offset >= |rows| then 0 else if |rows| - offset < limit then |rows| - offset else limit
  {
    if offset >= |rows| then [] else if offset + limit >= |rows| then rows[offset..] else rows[offset..offset + limit]
  }

  /** An order that the database may give the rows: by rank, and rows of one rank in any order. */
  ghost predicate Ordering(rows: seq<Row>, rank: Row -> int, s: seq<Row>) {
    multiset(s) == multiset(rows) && Sorted(rank, s)
  }

  ghost predicate Sorted(rank: Row -> int, s: seq<Row>) {
    forall i, j :: 0 <= i < j < |s| ==> rank(s[i]) <= rank(s[j])
  }

  /** No two rows of one rank are on either side of this place. */
  predicate NoTieAt(rank: Row -> int, s: seq<Row>, o: nat) {
    0 < o < |s| ==> rank(s[o - 1]) < rank(s[o])
  }

  /** Nor between any two pages from this offset on. */
  predicate NoTies(rank: Row -> int, s: seq<Row>, limit: nat, offset: nat)
    requires limit > 0
    decreases |s| - offset
  {
    offset < |s| ==> NoTieAt(rank, s, offset) && NoTies(rank, s, limit, offset + limit)
  }

  /** The pages from one offset on, one after the other, each in the order of its query. */
  function PagesFrom(orders: nat -> seq<Row>, total: nat, limit: nat, offset: nat): seq<Row>
    requires limit > 0
    decreases total - offset
  {
    if offset >= total then []
    else Page(orders(offset), limit, offset) + PagesFrom(orders, total, limit, offset + limit)
  }

  /** Any order for any query. */
  ghost predicate AllOrder(rows: seq<Row>, rank: Row -> int, orders: nat -> seq<Row>) {
    forall offset: nat :: Ordering(rows, rank, orders(offset))
  }

  // --------------------------------------------------------------- what a cut determines

  /** The rows up to a rank. */
  function UpTo(rank: Row -> int, s: seq<Row>, c: int): seq<Row> {
    if s == [] then [] else (if rank(s[0]) <= c then [s[0]] else []) + UpTo(rank, s[1..], c)
  }

  lemma {:induction false} UpToCounts(rank: Row -> int, s: seq<Row>, c: int, x: Row)
    ensures multiset(UpTo(rank, s, c))[x] == if rank(x) <= c then multiset(s)[x] else 0
  {
    if s != [] {
      UpToCounts(rank, s[1..], c, x);
      assert s == [s[0]] + s[1..];
    }
  }

  lemma {:induction false} NothingUpTo(rank: Row -> int, s: seq<Row>, c: int)
    requires forall i :: 0 <= i < |s| ==> rank(s[i]) > c
    ensures UpTo(rank, s, c) == []
  {
    if s != [] { NothingUpTo(rank, s[1..], c); }
  }

  /** In an ordered sequence they come first. */
  lemma {:induction false} UpToIsPrefix(rank: Row -> int, s: seq<Row>, c: int)
    requires Sorted(rank, s)
    ensures |UpTo(rank, s, c)| <= |s| && UpTo(rank, s, c) == s[..|UpTo(rank, s, c)|]
  {
    if s != [] {
      if rank(s[0]) <= c {
        UpToIsPrefix(rank, s[1..], c);
        var n := |UpTo(rank, s[1..], c)|;
        assert s[..n + 1] == [s[0]] + s[1..][..n];
      } else {
        NothingUpTo(rank, s[1..], c);
      }
    }
  }

  lemma {:induction false} UpToTheCut(rank: Row -> int, s: seq<Row>, o: nat)
    requires Sorted(rank, s) && 0 < o < |s| && NoTieAt(rank, s, o)
    ensures UpTo(rank, s, rank(s[o - 1])) == s[..o]
  {
    var c := rank(s[o - 1]);
    if o == 1 {
      NothingUpTo(rank, s[1..], c);
      assert s[..1] == [s[0]];
    } else {
      UpToTheCut(rank, s[1..], o - 1);
      assert s[..o] == [s[0]] + s[1..][..o - 1];
    }
  }

  /** Where there is no tie, the same rows come before in every order. */
  lemma CutIsForced(rows: seq<Row>, rank: Row -> int, s: seq<Row>, t: seq<Row>, o: nat)
    requires Ordering(rows, rank, s) && Ordering(rows, rank, t) && o <= |s| && NoTieAt(rank, s, o)
    ensures |t| == |s| && multiset(t[..o]) == multiset(s[..o])
  {
    assert |t| == |multiset(t)| == |multiset(s)| == |s|;
    if o == |s| {
      assert t[..o] == t && s[..o] == s;
    } else if o > 0 {
      var c := rank(s[o - 1]);
      UpToTheCut(rank, s, o);
      UpToIsPrefix(rank, t, c);
      var mine, theirs := UpTo(rank, s, c), UpTo(rank, t, c);
      forall x ensures multiset(mine)[x] == multiset(theirs)[x] {
        UpToCounts(rank, s, c, x);
        UpToCounts(rank, t, c, x);
      }
      assert multiset(mine) == multiset(theirs);
      assert |theirs| == |multiset(theirs)| == |multiset(mine)| == o;
    }
  }

  lemma CutInTwo(s: seq<Row>, i: nat, j: nat)
    requires i <= j <= |s|
    ensures multiset(s[i..]) == multiset(s[i..j]) + multiset(s[j..])
    ensures multiset(s[..j]) == multiset(s[..i]) + multiset(s[i..j])
  {
    assert s[i..] == s[i..j] + s[j..];
    assert s[..j] == s[..i] + s[i..j];
  }

  /** A page between two such places has the same rows in every order. */
  lemma PageIsForced(rows: seq<Row>, rank: Row -> int, s: seq<Row>, t: seq<Row>, i: nat, j: nat)
    requires Ordering(rows, rank, s) && Ordering(rows, rank, t) && i <= j <= |s|
    requires NoTieAt(rank, s, i) && NoTieAt(rank, s, j)
    ensures |t| == |s| && multiset(t[i..j]) == multiset(s[i..j])
  {
    CutIsForced(rows, rank, s, t, i);
    CutIsForced(rows, rank, s, t, j);
    CutInTwo(s, i, j);
    CutInTwo(t, i, j);
    assert multiset(t[i..j]) == multiset(t[..j]) - multiset(t[..i]);
    assert multiset(s[i..j]) == multiset(s[..j]) - multiset(s[..i]);
  }

  lemma LastPage(orders: nat -> seq<Row>, total: nat, limit: nat, offset: nat)
    requires limit > 0 && offset < total < offset + limit && |orders(offset)| == total
    ensures PagesFrom(orders, total, limit, offset) == orders(offset)[offset..total]
  {
    assert PagesFrom(orders, total, limit, offset + limit) == [];
  }

  lemma {:induction false} PagesAreForced(rows: seq<Row>, rank: Row -> int, s: seq<Row>, orders: nat -> seq<Row>,
      limit: nat, offset: nat)
    requires limit > 0 && Ordering(rows, rank, s) && AllOrder(rows, rank, orders)
    requires offset <= |s| && NoTieAt(rank, s, offset) && NoTies(rank, s, limit, offset)
    ensures multiset(PagesFrom(orders, |s|, limit, offset)) == multiset(s[offset..])
    decreases |s| - offset
  {
    hide Ordering, Page;
    if offset < |s| {
      var t, end := orders(offset), if offset + limit < |s| then offset + limit else |s|;
      assert Ordering(rows, rank, t);
      PageIsForced(rows, rank, s, t, offset, end);
      CutInTwo(s, offset, end);
      if end == offset + limit {
        FirstPage(orders, |s|, limit, offset);
        PagesAreForced(rows, rank, s, orders, limit, end);
      } else {
        LastPage(orders, |s|, limit, offset);
        assert s[end..] == [];
      }
    }
  }

  // ------------------------------------------------------------------------ what a tie does

  predicate Reaches(offset: nat, limit: nat, o: nat)
    requires limit > 0
    decreases o - offset
  {
    offset == o || (offset < o && Reaches(offset + limit, limit, o))
  }

  lemma {:induction false} FindTie(rank: Row -> int, s: seq<Row>, limit: nat, offset: nat) returns (o: nat)
    requires limit > 0 && !NoTies(rank, s, limit, offset)
    ensures Reaches(offset, limit, o) && offset <= o && 0 < o < |s| && !NoTieAt(rank, s, o)
    decreases |s| - offset
  {
    if NoTieAt(rank, s, offset) { o := FindTie(rank, s, limit, offset + limit); } else { o := offset; }
  }

  lemma FirstPage(orders: nat -> seq<Row>, total: nat, limit: nat, offset: nat)
    requires limit > 0 && offset + limit <= total && |orders(offset)| == total
    ensures PagesFrom(orders, total, limit, offset)
         == orders(offset)[offset..offset + limit] + PagesFrom(orders, total, limit, offset + limit)
  {
    var s := orders(offset);
    assert offset + limit == |s| ==> s[offset..] == s[offset..offset + limit];
  }

  lemma JoinSlices(s: seq<Row>, i: nat, j: nat, k: nat, rest: seq<Row>)
    requires i <= j <= k <= |s|
    ensures s[i..j] + (s[j..k] + rest) == s[i..k] + rest
  {}

  /** Queries up to one page see one order, and the later ones another. */
  lemma {:induction false} PagesOfTwo(orders: nat -> seq<Row>, s: seq<Row>, t: seq<Row>, limit: nat, offset: nat,
      o: nat)
    requires limit > 0 && Reaches(offset, limit, o) && o <= |s| == |t|
    requires forall k: nat :: orders(k) == if k < o then s else t
    ensures offset <= o && PagesFrom(orders, |s|, limit, offset) == s[offset..o] + t[o..]
    decreases o - offset
  {
    if offset == o {
      PagesOfOne(orders, t, limit, o);
      assert s[o..o] == [] && [] + t[o..] == t[o..];
    } else {
      var next := offset + limit;
      PagesOfTwo(orders, s, t, limit, next, o);
      FirstPage(orders, |s|, limit, offset);
      JoinSlices(s, offset, next, o, t[o..]);
    }
  }

  lemma {:induction false} PagesOfOne(orders: nat -> seq<Row>, t: seq<Row>, limit: nat, offset: nat)
    requires limit > 0 && offset <= |t| && forall k: nat :: offset <= k ==> orders(k) == t
    ensures PagesFrom(orders, |t|, limit, offset) == t[offset..]
    decreases |t| - offset
  {
    if offset < |t| {
      if offset + limit <= |t| {
        FirstPage(orders, |t|, limit, offset);
        PagesOfOne(orders, t, limit, offset + limit);
        assert t[offset..] == t[offset..offset + limit] + t[offset + limit..];
      } else {
        LastPage(orders, |t|, limit, offset);
      }
    }
  }

  function Swapped(s: seq<Row>, o: nat): seq<Row>
    requires 0 < o < |s|
  {
    s[o - 1 := s[o]][o := s[o - 1]]
  }

  /** Two rows of one rank that change places between two queries: one is on both pages, one on neither. */
  lemma SwappedIsOrdering(rows: seq<Row>, rank: Row -> int, s: seq<Row>, o: nat)
    requires Ordering(rows, rank, s) && 0 < o < |s| && !NoTieAt(rank, s, o)
    ensures Ordering(rows, rank, Swapped(s, o))
  {
    var t := Swapped(s, o);
    assert rank(s[o - 1]) == rank(s[o]);
    assert s == s[..o - 1] + [s[o - 1], s[o]] + s[o + 1..];
    assert t == s[..o - 1] + [s[o], s[o - 1]] + s[o + 1..];
    assert multiset([s[o - 1], s[o]]) == multiset([s[o], s[o - 1]]);
  }

  lemma TwiceCounts(pages: seq<Row>, o: nat)
    requires 0 < o < |pages| && pages[o - 1] == pages[o]
    ensures multiset(pages)[pages[o]] >= 2
  {
    var x := pages[o];
    assert pages == pages[..o - 1] + [x, x] + pages[o + 1..];
  }

  lemma OrderingCounts(rows: seq<Row>, rank: Row -> int, s: seq<Row>)
    requires Ordering(rows, rank, s)
    ensures |s| == |rows|
  {
    assert |rows| == |multiset(rows)| == |multiset(s)| == |s|;
  }

  /** The orders in which it goes wrong. */
  function Switch(s: seq<Row>, t: seq<Row>, o: nat): nat -> seq<Row> { k => if k < o then s else t }

  lemma TieRepeats(s: seq<Row>, limit: nat, o: nat)
    requires limit > 0 && 0 < o < |s| && Reaches(0, limit, o)
    ensures multiset(PagesFrom(Switch(s, Swapped(s, o), o), |s|, limit, 0))[s[o - 1]] >= 2
  {
    var t := Swapped(s, o);
    PagesOfTwo(Switch(s, t, o), s, t, limit, 0, o);
    TwiceCounts(s[0..o] + t[o..], o);
  }

  /** Each row is on exactly one page, in whatever order the queries see rows of one rank. */
  ghost predicate PagesAreWhole(rows: seq<Row>, rank: Row -> int, limit: nat)
    requires limit > 0
  {
    forall orders: nat -> seq<Row> | AllOrder(rows, rank, orders) ::
      multiset(PagesFrom(orders, |rows|, limit, 0)) == multiset(rows)
  }

  lemma NoTieIsWhole(rows: seq<Row>, rank: Row -> int, s: seq<Row>, limit: nat)
    requires limit > 0 && Ordering(rows, rank, s) && NoTies(rank, s, limit, 0)
    ensures PagesAreWhole(rows, rank, limit)
  {
    OrderingCounts(rows, rank, s);
    forall orders: nat -> seq<Row> | AllOrder(rows, rank, orders)
      ensures multiset(PagesFrom(orders, |rows|, limit, 0)) == multiset(rows)
    {
      PagesAreForced(rows, rank, s, orders, limit, 0);
      assert s[0..] == s;
    }
  }

  lemma TieIsNotWhole(rows: seq<Row>, rank: Row -> int, s: seq<Row>, limit: nat, o: nat)
    requires limit > 0 && Ordering(rows, rank, s) && 0 < o < |s| && Reaches(0, limit, o) && !NoTieAt(rank, s, o)
    requires multiset(rows)[s[o - 1]] == 1
    ensures !PagesAreWhole(rows, rank, limit)
  {
    OrderingCounts(rows, rank, s);
    SwappedIsOrdering(rows, rank, s, o);
    TieRepeats(s, limit, o);
    hide Ordering, PagesFrom, Swapped;
    assert AllOrder(rows, rank, Switch(s, Swapped(s, o), o));
  }

  /** That is so if and only if no two rows of one rank are on either side of the end of a page. */
  lemma PagesAreTheRowsIff(rows: seq<Row>, rank: Row -> int, s: seq<Row>, limit: nat)
    requires limit > 0 && Ordering(rows, rank, s) && forall x <- rows :: multiset(rows)[x] == 1
    ensures PagesAreWhole(rows, rank, limit) <==> NoTies(rank, s, limit, 0)
  {
    if NoTies(rank, s, limit, 0) {
      NoTieIsWhole(rows, rank, s, limit);
    } else {
      var o := FindTie(rank, s, limit, 0);
      var x := s[o - 1];
      assert x in multiset(s) && x in multiset(rows);
      assert x in rows && multiset(rows)[x] == 1;
      TieIsNotWhole(rows, rank, s, limit, o);
    }
  }

  /** Two rows of one rank, one to a page: it depends on luck whether both are seen. */
  lemma TieAtThePage(rank: Row -> int)
    requires rank(1) == rank(2)
    ensures !PagesAreWhole([1, 2], rank, 1)
  {
    PagesAreTheRowsIff([1, 2], rank, [1, 2], 1);
    assert !NoTieAt(rank, [1, 2], 1) && NoTieAt(rank, [1, 2], 0);
    assert !NoTies(rank, [1, 2], 1, 1);
  }

}
