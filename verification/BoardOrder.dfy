/** web/src/lib/boardOrder.ts: where a dropped card lands, and how the server is told. */
module BoardOrder {
  import opened Wrappers

  ghost predicate Distinct<T>(s: seq<T>) {
    forall i, j :: 0 <= i < j < |s| ==> s[i] != s[j]
  }

  /** The index of the first occurrence, or -1. */
  function IndexOf<T(==)>(s: seq<T>, x: T): (i: int)
    ensures -1 <= i < |s|
    ensures if i < 0 then x !in s else s[i] == x && x !in s[..i]
  {
    if s == [] then -1
    else if s[0] == x then 0
    else
      var i := IndexOf(s[1..], x);
      assert x in s <==> x in s[1..];
      assert i >= 0 ==> s[..i + 1] == [s[0]] + s[1..][..i];
      if i < 0 then -1 else i + 1
  }

  /** A sequence without the element at one position. */
  function Dropped<T>(s: seq<T>, i: nat): (r: seq<T>)
    requires i < |s|
    ensures |r| == |s| - 1
  {
    s[..i] + s[i + 1..]
  }

  /** A sequence with an element put in at one position. */
  function Put<T>(s: seq<T>, i: nat, x: T): (r: seq<T>)
    requires i <= |s|
    ensures |r| == |s| + 1 && r[i] == x && Dropped(r, i) == s
  {
    var r := s[..i] + [x] + s[i..];
    assert r[..i] == s[..i] && r[i + 1..] == s[i..];
    assert s[..i] + s[i..] == s;
    r
  }

  lemma PutIsDistinct<T>(s: seq<T>, i: nat, x: T)
    requires i <= |s| && Distinct(s) && x !in s
    ensures Distinct(Put(s, i, x))
  {
    var r := Put(s, i, x);
    assert forall k :: 0 <= k < |r| && k != i ==> r[k] == s[if k < i then k else k - 1];
  }

  // ---------------------------------------------------------------------- arrayMove

  /** The first index a JavaScript splice works at: a negative one counts from the end. */
  function SpliceStart(start: int, length: nat): (i: nat)
    ensures i <= length
  {
    if start < 0 then (if length + start < 0 then 0 else length + start)
    else if start > length then length
    else start
  }

  function Moved<T>(s: seq<T>, from: int, to: int): (r: seq<T>)
    requires s != [] && from < |s|
  {
    var f := SpliceStart(from, |s|);
    Put(Dropped(s, f), SpliceStart(to, |s| - 1), s[f])
  }

  /** The moved element ends at the index asked for, the others keep their order, nothing is lost. */
  lemma MovedIsAPermutation<T>(s: seq<T>, from: int, to: int)
    requires s != [] && from < |s|
    ensures var f, t, r := SpliceStart(from, |s|), SpliceStart(to, |s| - 1), Moved(s, from, to);
            |r| == |s| && r[t] == s[f] && Dropped(r, t) == Dropped(s, f) && multiset(r) == multiset(s)
  {
    var f, t, r := SpliceStart(from, |s|), SpliceStart(to, |s| - 1), Moved(s, from, to);
    SplitAt(s, f);
    SplitAt(r, t);
  }

  lemma SplitAt<T>(s: seq<T>, i: nat)
    requires i < |s|
    ensures multiset(s) == multiset(Dropped(s, i)) + multiset{s[i]}
  {
    assert s == s[..i] + [s[i]] + s[i + 1..];
  }

  /** Two splices of a copy. Where there is nothing to move, the first one takes nothing out and the second
      puts in what JavaScript has for nothing. */
  method ArrayMove<T>(arr: seq<T>, from: int, to: int, undefined: T) returns (copy: seq<T>)
    ensures from < |arr| && arr != [] ==>
              var f, t := SpliceStart(from, |arr|), SpliceStart(to, |arr| - 1);
              |copy| == |arr| && copy[t] == arr[f] && Dropped(copy, t) == Dropped(arr, f)
                  && copy == Moved(arr, from, to)
    ensures from >= |arr| || arr == [] ==>
              var t := SpliceStart(to, |arr|);
              |copy| == |arr| + 1 && copy[t] == undefined && Dropped(copy, t) == arr
  {
    copy := arr;
    var start, item := SpliceStart(from, |copy|), undefined;
    if start < |copy| {
      item := copy[start];
      copy := copy[..start] + copy[start + 1..];
      assert copy == Dropped(arr, start);
      MovedIsAPermutation(arr, from, to);
    }
    ghost var rest := copy;
    start := SpliceStart(to, |copy|);
    copy := copy[..start] + [item] + copy[start..];
    assert copy == Put(rest, start, item);
  }

  // --------------------------------------------------------------------- neighbours

  /** What the request says of the place of a card: the card above it and the card below it. */
  datatype Between = Between(above: Option<string>, below: Option<string>)

  function Neighbours(ordered: seq<string>, moved: string): Between {
    var i := IndexOf(ordered, moved);
    if i < 0 then Between(None, None)
    else
      Between(if i > 0 then Some(ordered[i - 1]) else None,
              if i < |ordered| - 1 then Some(ordered[i + 1]) else None)
  }

  /** The position in `rest` that a request names. */
  function Place(rest: seq<string>, b: Between): (i: nat)
    ensures i <= |rest|
  {
    if b.above.Some? && b.above.value in rest then IndexOf(rest, b.above.value) + 1
    else if b.below.Some? && b.below.value in rest then IndexOf(rest, b.below.value)
    else |rest|
  }

  lemma IndexIsUnique<T>(s: seq<T>, i: nat)
    requires i < |s| && Distinct(s)
    ensures IndexOf(s, s[i]) == i
  {
    assert s[i] in s;
    assert s[IndexOf(s, s[i])] == s[i];
  }

  lemma DroppedIsDistinct<T>(s: seq<T>, i: nat)
    requires i < |s| && Distinct(s)
    ensures Distinct(Dropped(s, i)) && s[i] !in Dropped(s, i)
  {
    var r := Dropped(s, i);
    assert forall k :: 0 <= k < |r| ==> r[k] == s[if k < i then k else k + 1];
  }

  /** The request is enough: taking the card out and putting it back at the place named by its
      neighbours rebuilds the order. */
  lemma NeighboursRebuild(ordered: seq<string>, moved: string)
    requires Distinct(ordered) && moved in ordered
    ensures var rest := Dropped(ordered, IndexOf(ordered, moved));
            Put(rest, Place(rest, Neighbours(ordered, moved)), moved) == ordered
  {
    var i := IndexOf(ordered, moved);
    var rest := Dropped(ordered, i);
    DroppedIsDistinct(ordered, i);
    if i > 0 {
      assert rest[i - 1] == ordered[i - 1];
      IndexIsUnique(rest, i - 1);
    } else if |ordered| > 1 {
      assert rest[i] == ordered[i + 1];
      IndexIsUnique(rest, i);
    }
    assert Place(rest, Neighbours(ordered, moved)) == i;
    assert Put(rest, i, moved) == ordered[..i] + [moved] + ordered[i + 1..];
  }

  /** And no other order gives the same request. */
  lemma NeighboursDetermine(x: seq<string>, y: seq<string>, moved: string)
    requires Distinct(x) && Distinct(y) && moved in x && moved in y
    requires Dropped(x, IndexOf(x, moved)) == Dropped(y, IndexOf(y, moved))
    ensures Neighbours(x, moved) == Neighbours(y, moved) <==> x == y
  {
    NeighboursRebuild(x, moved);
    NeighboursRebuild(y, moved);
  }

}
