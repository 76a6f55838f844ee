/** web/src/lib/diff.ts: the line diff shown for document versions and for edit conflicts. */
module Diff {
  import opened Wrappers
  import Text

  /** An entry of a Uint32Array row: the verifier checks that no addition leaves this range. */
  newtype uint32 = x: int | 0 <= x < 0x1_0000_0000

  /** Above this many table cells the diff falls back to delete-all, add-all. */
  const MAX_CELLS := 4_000_000

  datatype Kind = Same | Del | Add

  datatype DiffLine = DiffLine(kind: Kind, text: string, oldNo: Option<nat>, newNo: Option<nat>)

  type Script = seq<DiffLine>

  // ------------------------------------------------------------ reading a script

  /** The lines of the old text that a script accounts for. */
  function OldTexts(s: Script): seq<string> {
    if s == [] then [] else (if s[0].kind == Add then [] else [s[0].text]) + OldTexts(s[1..])
  }

  /** The lines of the new text that a script accounts for. */
  function NewTexts(s: Script): seq<string> {
    if s == [] then [] else (if s[0].kind == Del then [] else [s[0].text]) + NewTexts(s[1..])
  }

  function SameCount(s: Script): nat {
    if s == [] then 0 else (if s[0].kind == Same then 1 else 0) + SameCount(s[1..])
  }

  /** The number of added and deleted lines: what the reader of a diff has to look at. */
  function Changes(s: Script): nat {
    if s == [] then 0 else (if s[0].kind == Same then 0 else 1) + Changes(s[1..])
  }

  /** A script turns the lines of `a` into the lines of `b`. */
  ghost predicate Transforms(s: Script, a: seq<string>, b: seq<string>) {
    OldTexts(s) == a && NewTexts(s) == b
  }

  /** Line numbers count 1, 2, 3, ... on each side, `i` and `j` lines having gone by. */
  ghost predicate NumberedFrom(s: Script, i: nat, j: nat) {
    s != [] ==>
      match s[0].kind
      case Same => s[0].oldNo == Some(i + 1) && s[0].newNo == Some(j + 1) && NumberedFrom(s[1..], i + 1, j + 1)
      case Del => s[0].oldNo == Some(i + 1) && s[0].newNo == None && NumberedFrom(s[1..], i + 1, j)
      case Add => s[0].oldNo == None && s[0].newNo == Some(j + 1) && NumberedFrom(s[1..], i, j + 1)
  }

  /** Inside a change hunk all deletions come first. */
  ghost predicate Canonical(s: Script) {
    forall k :: 0 <= k < |s| - 1 && s[k].kind == Add ==> s[k + 1].kind != Del
  }

  /** No script between the same two texts changes fewer lines. */
  ghost predicate Minimal(s: Script) {
    forall t: Script :: Transforms(t, OldTexts(s), NewTexts(s)) ==> Changes(s) <= Changes(t)
  }

  // ------------------------------------------------- longest common subsequences

  /** A common subsequence, as the pairs of positions it aligns, from (i, j) on. */
  ghost predicate Alignment(a: seq<string>, b: seq<string>, i: nat, j: nat, ps: seq<(nat, nat)>) {
    && (forall k :: 0 <= k < |ps| ==> i <= ps[k].0 < |a| && j <= ps[k].1 < |b| && a[ps[k].0] == b[ps[k].1])
    && (forall k, l :: 0 <= k < l < |ps| ==> ps[k].0 < ps[l].0 && ps[k].1 < ps[l].1)
  }

  function Max(x: nat, y: nat): nat { if x < y then y else x }

  function Min(x: nat, y: nat): nat { if x < y then x else y }

  /** The recurrence that the table fills bottom-up. */
  function Lcs(a: seq<string>, b: seq<string>, i: nat, j: nat): nat
    requires i <= |a| && j <= |b|
    decreases |a| - i + |b| - j
  {
    if i == |a| || j == |b| then 0
    else if a[i] == b[j] then Lcs(a, b, i + 1, j + 1) + 1
    else Max(Lcs(a, b, i + 1, j), Lcs(a, b, i, j + 1))
  }

  /** No common subsequence is longer than the recurrence says ... */
  lemma {:induction false} LcsIsUpperBound(a: seq<string>, b: seq<string>, i: nat, j: nat, ps: seq<(nat, nat)>)
    requires i <= |a| && j <= |b| && Alignment(a, b, i, j, ps)
    ensures |ps| <= Lcs(a, b, i, j)
    decreases |a| - i + |b| - j
  {
    if ps != [] {
      assert i <= ps[0].0 < |a| && j <= ps[0].1 < |b|;
      if a[i] == b[j] {
        forall k | 0 <= k < |ps[1..]| ensures ps[0].0 < ps[1..][k].0 && ps[0].1 < ps[1..][k].1 {
          assert ps[1..][k] == ps[k + 1];
        }
        LcsIsUpperBound(a, b, i + 1, j + 1, ps[1..]);
      } else if ps[0].0 > i {
        LcsIsUpperBound(a, b, i + 1, j, ps);
      } else {
        LcsIsUpperBound(a, b, i, j + 1, ps);
      }
    }
  }

  /** ... and one is exactly that long. */
  lemma {:induction false} LcsIsAttained(a: seq<string>, b: seq<string>, i: nat, j: nat) returns (ps: seq<(nat, nat)>)
    requires i <= |a| && j <= |b|
    ensures Alignment(a, b, i, j, ps) && |ps| == Lcs(a, b, i, j)
    decreases |a| - i + |b| - j
  {
    if i == |a| || j == |b| {
      ps := [];
    } else if a[i] == b[j] {
      var rest := LcsIsAttained(a, b, i + 1, j + 1);
      ps := [(i, j)] + rest;
    } else if Lcs(a, b, i + 1, j) >= Lcs(a, b, i, j + 1) {
      ps := LcsIsAttained(a, b, i + 1, j);
    } else {
      ps := LcsIsAttained(a, b, i, j + 1);
    }
  }

  /** Dropping one line loses at most one match, and never gains one. */
  lemma {:induction false} LcsStep(a: seq<string>, b: seq<string>, i: nat, j: nat)
    requires i <= |a| && j <= |b|
    ensures i < |a| ==> Lcs(a, b, i + 1, j) <= Lcs(a, b, i, j) <= Lcs(a, b, i + 1, j) + 1
    ensures j < |b| ==> Lcs(a, b, i, j + 1) <= Lcs(a, b, i, j) <= Lcs(a, b, i, j + 1) + 1
    decreases |a| - i + |b| - j
  {
    if i < |a| && j < |b| {
      LcsStep(a, b, i + 1, j);
      LcsStep(a, b, i, j + 1);
    }
  }

  lemma {:induction false} LcsFits(a: seq<string>, b: seq<string>, i: nat, j: nat)
    requires i <= |a| && j <= |b|
    ensures Lcs(a, b, i, j) <= Min(|a| - i, |b| - j)
    decreases |a| - i + |b| - j
  {
    if i < |a| && j < |b| {
      LcsFits(a, b, i + 1, j + 1);
      LcsFits(a, b, i + 1, j);
      LcsFits(a, b, i, j + 1);
    }
  }

  lemma ProductGrows(x: nat, y: nat)
    requires x > 2000 && y > 2000
    ensures x * y > 2000 * 2000
  {
    assert x * y >= 2001 * y;
  }

  /** Under the size guard no table entry exceeds 2000, far inside 32 bits. */
  lemma TableEntryBound(a: seq<string>, b: seq<string>, i: nat, j: nat)
    requires i <= |a| && j <= |b| && |a| * |b| <= MAX_CELLS
    ensures Lcs(a, b, i, j) <= 2000
  {
    LcsFits(a, b, i, j);
    assert |a| <= 2000 || |b| <= 2000 by {
      if |a| > 2000 && |b| > 2000 { ProductGrows(|a|, |b|); }
    }
  }

  // ------------------------------------------------------------------- the diff

  /** The forward walk over the table, including the two tail loops. */
  function Walk(a: seq<string>, b: seq<string>, i: nat, j: nat): Script
    requires i <= |a| && j <= |b|
    decreases |a| - i + |b| - j
  {
    if i < |a| && j < |b| && a[i] == b[j] then
      [DiffLine(Same, a[i], Some(i + 1), Some(j + 1))] + Walk(a, b, i + 1, j + 1)
    else if i < |a| && (j < |b| ==> Lcs(a, b, i + 1, j) >= Lcs(a, b, i, j + 1)) then
      [DiffLine(Del, a[i], Some(i + 1), None)] + Walk(a, b, i + 1, j)
    else if j < |b| then
      [DiffLine(Add, b[j], None, Some(j + 1))] + Walk(a, b, i, j + 1)
    else []
  }

  function DeleteAll(a: seq<string>): Script {
    seq(|a|, i requires 0 <= i < |a| => DiffLine(Del, a[i], Some(i + 1), None))
  }

  function AddAll(b: seq<string>): Script {
    seq(|b|, j requires 0 <= j < |b| => DiffLine(Add, b[j], None, Some(j + 1)))
  }

  function DiffOf(a: seq<string>, b: seq<string>): Script {
    if |a| * |b| > MAX_CELLS then DeleteAll(a) + AddAll(b) else Walk(a, b, 0, 0)
  }

  /** Row `i` of the table holds the recurrence from column `j` on. */
  ghost predicate RowFilled(dp: array2<uint32>, a: seq<string>, b: seq<string>, i: nat, j: nat)
    requires dp.Length0 == |a| + 1 && dp.Length1 == |b| + 1 && i <= |a|
    reads dp
  {
    forall l :: j <= l <= |b| ==> dp[i, l] as int == Lcs(a, b, i, l)
  }

  ghost predicate TableFilled(dp: array2<uint32>, a: seq<string>, b: seq<string>)
    reads dp
  {
    && dp.Length0 == |a| + 1 && dp.Length1 == |b| + 1
    && forall i :: 0 <= i <= |a| ==> RowFilled(dp, a, b, i, 0)
  }

  /** The inner loop of the table fill: one row, right to left, from the row below it. */
  method FillRow(dp: array2<uint32>, a: seq<string>, b: seq<string>, i: nat)
    requires i < |a| && |a| * |b| <= MAX_CELLS && dp.Length0 == |a| + 1 && dp.Length1 == |b| + 1
    requires RowFilled(dp, a, b, i + 1, 0) && dp[i, |b|] == 0
    modifies dp
    ensures RowFilled(dp, a, b, i, 0)
    ensures forall k, l :: 0 <= k <= |a| && 0 <= l <= |b| && k != i ==> dp[k, l] == old(dp[k, l])
  {
    for j := |b| downto 0
      invariant RowFilled(dp, a, b, i + 1, 0) && RowFilled(dp, a, b, i, j)
      invariant forall k, l :: 0 <= k <= |a| && 0 <= l <= |b| && k != i ==> dp[k, l] == old(dp[k, l])
    {
      TableEntryBound(a, b, i + 1, j + 1);
      dp[i, j] := if a[i] == b[j] then dp[i + 1, j + 1] + 1
                  else if dp[i + 1, j] < dp[i, j + 1] then dp[i, j + 1] else dp[i + 1, j];
    }
  }

  /** The bottom-up table fill. */
  method FillTable(a: seq<string>, b: seq<string>) returns (dp: array2<uint32>)
    requires |a| * |b| <= MAX_CELLS
    ensures TableFilled(dp, a, b) && fresh(dp)
  {
    dp := new uint32[|a| + 1, |b| + 1]((_, _) => 0);
    for i := |a| downto 0
      invariant forall k :: i <= k <= |a| ==> RowFilled(dp, a, b, k, 0)
      invariant forall k :: 0 <= k < i ==> dp[k, |b|] == 0
    {
      label before:
      assert RowFilled(dp, a, b, i + 1, 0);
      FillRow(dp, a, b, i);
      forall k | i < k <= |a| ensures RowFilled(dp, a, b, k, 0) {
        assert old@before(RowFilled(dp, a, b, k, 0));
      }
    }
  }

  /** What has been emitted so far is what the walk emits before reaching (i, j). */
  ghost predicate Emitted(out: Script, a: seq<string>, b: seq<string>, i: nat, j: nat)
    requires i <= |a| && j <= |b|
  {
    out + Walk(a, b, i, j) == Walk(a, b, 0, 0)
  }

  lemma Emit(out: Script, line: DiffLine, a: seq<string>, b: seq<string>, i: nat, j: nat, i': nat, j': nat)
    requires i <= i' <= |a| && j <= j' <= |b| && Emitted(out, a, b, i, j)
    requires Walk(a, b, i, j) == [line] + Walk(a, b, i', j')
    ensures Emitted(out + [line], a, b, i', j')
  {
    assert out + Walk(a, b, i, j) == out + [line] + Walk(a, b, i', j');
  }

  /** The forward walk and its two tail loops. */
  method WalkTable(a: seq<string>, b: seq<string>, dp: array2<uint32>) returns (out: Script)
    requires TableFilled(dp, a, b)
    ensures out == Walk(a, b, 0, 0)
  {
    var n, m := |a|, |b|;
    out := [];
    var i, j := 0, 0;
    while i < n && j < m
      invariant 0 <= i <= n && 0 <= j <= m && Emitted(out, a, b, i, j)
      decreases n - i + m - j
    {
      assert RowFilled(dp, a, b, i, 0) && RowFilled(dp, a, b, i + 1, 0);
      var i', j' := i, j;
      var line;
      if a[i] == b[j] {
        line := DiffLine(Same, a[i], Some(i + 1), Some(j + 1));
        i', j' := i + 1, j + 1;
      } else if dp[i + 1, j] >= dp[i, j + 1] {
        line := DiffLine(Del, a[i], Some(i + 1), None);
        i' := i + 1;
      } else {
        line := DiffLine(Add, b[j], None, Some(j + 1));
        j' := j + 1;
      }
      Emit(out, line, a, b, i, j, i', j');
      out, i, j := out + [line], i', j';
    }
    while i < n
      invariant 0 <= i <= n && 0 <= j <= m && (i == n || j == m) && Emitted(out, a, b, i, j)
    {
      var line := DiffLine(Del, a[i], Some(i + 1), None);
      Emit(out, line, a, b, i, j, i + 1, j);
      out, i := out + [line], i + 1;
    }
    while j < m
      invariant 0 <= j <= m && i == n && Emitted(out, a, b, i, j)
    {
      var line := DiffLine(Add, b[j], None, Some(j + 1));
      Emit(out, line, a, b, i, j, i, j + 1);
      out, j := out + [line], j + 1;
    }
  }

  method DiffLines(oldText: string, newText: string) returns (out: Script)
    ensures out == DiffOf(Text.Split(oldText), Text.Split(newText))
  {
    var a, b := Text.Split(oldText), Text.Split(newText);
    if |a| * |b| > MAX_CELLS {
      return DeleteAll(a) + AddAll(b);
    }
    var dp := FillTable(a, b);
    out := WalkTable(a, b, dp);
  }

  // ------------------------------------------------------------ facts on scripts

  /** Every line of a script is a match or a change. */
  lemma {:induction false} CountsAddUp(s: Script)
    ensures Changes(s) == |OldTexts(s)| + |NewTexts(s)| - 2 * SameCount(s)
    ensures |s| == |OldTexts(s)| + |NewTexts(s)| - SameCount(s)
    ensures SameCount(s) <= |OldTexts(s)| && SameCount(s) <= |NewTexts(s)|
  {
    if s != [] { CountsAddUp(s[1..]); }
  }

  /** No script keeps more lines than the longest common subsequence has. */
  lemma {:induction false} ScriptKeepsAtMostLcs(s: Script, a: seq<string>, b: seq<string>, i: nat, j: nat)
    requires i <= |a| && j <= |b| && Transforms(s, a[i..], b[j..])
    ensures SameCount(s) <= Lcs(a, b, i, j)
    decreases |s|
  {
    if s != [] {
      LcsStep(a, b, i, j);
      match s[0].kind {
        case Same =>
          assert a[i..][1..] == a[i + 1..] && b[j..][1..] == b[j + 1..];
          assert OldTexts(s)[1..] == OldTexts(s[1..]) && NewTexts(s)[1..] == NewTexts(s[1..]);
          assert a[i] == OldTexts(s)[0] == s[0].text == NewTexts(s)[0] == b[j];
          ScriptKeepsAtMostLcs(s[1..], a, b, i + 1, j + 1);
        case Del =>
          assert a[i..][1..] == a[i + 1..];
          assert OldTexts(s)[1..] == OldTexts(s[1..]);
          ScriptKeepsAtMostLcs(s[1..], a, b, i + 1, j);
        case Add =>
          assert b[j..][1..] == b[j + 1..];
          assert NewTexts(s)[1..] == NewTexts(s[1..]);
          ScriptKeepsAtMostLcs(s[1..], a, b, i, j + 1);
      }
    }
  }

  /** The walk is a numbered script between the two suffixes that keeps as many lines as possible. */
  lemma {:induction false} WalkTransforms(a: seq<string>, b: seq<string>, i: nat, j: nat)
    requires i <= |a| && j <= |b|
    ensures Transforms(Walk(a, b, i, j), a[i..], b[j..])
    ensures NumberedFrom(Walk(a, b, i, j), i, j)
    ensures SameCount(Walk(a, b, i, j)) == Lcs(a, b, i, j)
    decreases |a| - i + |b| - j
  {
    var w := Walk(a, b, i, j);
    if w != [] {
      match w[0].kind {
        case Same =>
          WalkTransforms(a, b, i + 1, j + 1);
          assert a[i..] == [a[i]] + a[i + 1..] && b[j..] == [b[j]] + b[j + 1..];
        case Del =>
          WalkTransforms(a, b, i + 1, j);
          assert a[i..] == [a[i]] + a[i + 1..];
        case Add =>
          WalkTransforms(a, b, i, j + 1);
          assert b[j..] == [b[j]] + b[j + 1..];
      }
    }
  }

  lemma {:induction false} WalkIsCanonical(a: seq<string>, b: seq<string>, i: nat, j: nat)
    requires i <= |a| && j <= |b|
    ensures Canonical(Walk(a, b, i, j))
    decreases |a| - i + |b| - j
  {
    var w := Walk(a, b, i, j);
    if w != [] {
      match w[0].kind {
        case Same => WalkIsCanonical(a, b, i + 1, j + 1);
        case Del => WalkIsCanonical(a, b, i + 1, j);
        case Add =>
          WalkIsCanonical(a, b, i, j + 1);
          if i < |a| { AddIsNotFollowedByDel(a, b, i, j); }
      }
    }
  }

  /** The tie-break at work: an addition is only chosen where a deletion would lose a match, and it
      would still lose it one step later. */
  lemma AddIsNotFollowedByDel(a: seq<string>, b: seq<string>, i: nat, j: nat)
    requires i < |a| && j < |b| && a[i] != b[j]
    requires Lcs(a, b, i + 1, j) < Lcs(a, b, i, j + 1)
    ensures Walk(a, b, i, j + 1) != [] && Walk(a, b, i, j + 1)[0].kind != Del
  {
    LcsStep(a, b, i + 1, j);
  }

  lemma {:induction false} OnlyAdds(b: seq<string>, i: nat, j: nat)
    requires j <= |b|
    ensures Transforms(AddAll(b)[j..], [], b[j..])
    ensures NumberedFrom(AddAll(b)[j..], i, j) && SameCount(AddAll(b)[j..]) == 0
    decreases |b| - j
  {
    var s := AddAll(b)[j..];
    if j < |b| {
      OnlyAdds(b, i, j + 1);
      assert s[0] == DiffLine(Add, b[j], None, Some(j + 1)) && s[1..] == AddAll(b)[j + 1..];
      assert b[j..] == [b[j]] + b[j + 1..];
    }
  }

  lemma {:induction false} DeletesThenAdds(a: seq<string>, b: seq<string>, i: nat)
    requires i <= |a|
    ensures var s := DeleteAll(a)[i..] + AddAll(b);
      Transforms(s, a[i..], b) && NumberedFrom(s, i, 0) && SameCount(s) == 0
    decreases |a| - i
  {
    var s := DeleteAll(a)[i..] + AddAll(b);
    if i < |a| {
      DeletesThenAdds(a, b, i + 1);
      assert s[0] == DiffLine(Del, a[i], Some(i + 1), None) && s[1..] == DeleteAll(a)[i + 1..] + AddAll(b);
      assert a[i..] == [a[i]] + a[i + 1..];
    } else {
      OnlyAdds(b, i, 0);
      assert s == AddAll(b)[0..] && b == b[0..];
    }
  }

  // ---------------------------------------------------------------- main results

  /** A diff is a faithful, numbered and canonical account of both texts, whatever their size. */
  lemma DiffIsFaithful(oldText: string, newText: string)
    ensures var d := DiffOf(Text.Split(oldText), Text.Split(newText));
      && Text.Join(OldTexts(d)) == oldText
      && Text.Join(NewTexts(d)) == newText
      && NumberedFrom(d, 0, 0)
      && Canonical(d)
  {
    var a, b := Text.Split(oldText), Text.Split(newText);
    Text.JoinSplit(oldText);
    Text.JoinSplit(newText);
    DiffTransforms(a, b);
    WalkIsCanonical(a, b, 0, 0);
  }

  lemma DiffTransforms(a: seq<string>, b: seq<string>)
    ensures Transforms(DiffOf(a, b), a, b) && NumberedFrom(DiffOf(a, b), 0, 0)
    ensures SameCount(DiffOf(a, b)) == if |a| * |b| > MAX_CELLS then 0 else Lcs(a, b, 0, 0)
  {
    assert a[0..] == a && b[0..] == b;
    assert DeleteAll(a)[0..] == DeleteAll(a);
    WalkTransforms(a, b, 0, 0);
    DeletesThenAdds(a, b, 0);
  }

  /** Within the guard the diff keeps a longest common subsequence, so its length is n + m - LCS. */
  lemma DiffKeepsLcs(a: seq<string>, b: seq<string>)
    requires |a| * |b| <= 4_000_000
    ensures exists ps :: Alignment(a, b, 0, 0, ps) && |ps| == SameCount(DiffOf(a, b))
    ensures forall ps :: Alignment(a, b, 0, 0, ps) ==> |ps| <= SameCount(DiffOf(a, b))
    ensures |DiffOf(a, b)| == |a| + |b| - SameCount(DiffOf(a, b))
  {
    DiffTransforms(a, b);
    CountsAddUp(DiffOf(a, b));
    var kept := LcsIsAttained(a, b, 0, 0);
    forall ps | Alignment(a, b, 0, 0, ps) ensures |ps| <= SameCount(DiffOf(a, b)) {
      LcsIsUpperBound(a, b, 0, 0, ps);
    }
  }

  /** The diff is a shortest one exactly when the size guard was not hit or there was nothing to keep. */
  lemma DiffIsMinimalIff(a: seq<string>, b: seq<string>)
    ensures Minimal(DiffOf(a, b)) <==> |a| * |b| <= 4_000_000 || forall line <- a :: line !in b
  {
    var d := DiffOf(a, b);
    DiffTransforms(a, b);
    CountsAddUp(d);
    forall t: Script | Transforms(t, a, b) ensures Changes(t) >= |a| + |b| - 2 * Lcs(a, b, 0, 0) {
      CountsAddUp(t);
      assert a[0..] == a && b[0..] == b;
      ScriptKeepsAtMostLcs(t, a, b, 0, 0);
    }
    if |a| * |b| > MAX_CELLS {
      if line :| line in a && line in b {
        var i :| 0 <= i < |a| && a[i] == line;
        var j :| 0 <= j < |b| && b[j] == line;
        LcsIsUpperBound(a, b, 0, 0, [(i, j)]);
        var w := Walk(a, b, 0, 0);
        assert a[0..] == a && b[0..] == b;
        WalkTransforms(a, b, 0, 0);
        CountsAddUp(w);
        assert Transforms(w, OldTexts(d), NewTexts(d)) && Changes(w) < Changes(d);
      } else {
        NothingInCommon(a, b, 0, 0);
      }
    }
  }

  /** The failing case, in one text: compared with itself, a text of 2001 equal lines is over the guard, so
      that all of it is deleted and added again. */
  lemma TextAgainstItself()
    ensures exists text :: !Minimal(DiffOf(Text.Split(text), Text.Split(text)))
  {
    var a: seq<string> := seq(2001, _ => "x");
    var text := Text.Join(a);
    Text.SplitJoin(a);
    assert |a| == 2001 && |a| * |a| > MAX_CELLS;
    assert a[0] in a;
    DiffIsMinimalIff(a, a);
    assert !Minimal(DiffOf(Text.Split(text), Text.Split(text)));
  }

  lemma {:induction false} NothingInCommon(a: seq<string>, b: seq<string>, i: nat, j: nat)
    requires i <= |a| && j <= |b| && forall line <- a :: line !in b
    ensures Lcs(a, b, i, j) == 0
    decreases |a| - i + |b| - j
  {
    if i < |a| && j < |b| {
      assert a[i] in a && b[j] in b;
      NothingInCommon(a, b, i + 1, j);
      NothingInCommon(a, b, i, j + 1);
    }
  }

  /** Prefer a match, then a deletion, then an addition. */
  function Rank(k: Kind): nat {
    match k case Same => 0 case Del => 1 case Add => 2
  }

  /** The dictionary order on scripts under that preference. */
  ghost predicate NotAfter(s: Script, t: Script) {
    s == [] || (t != [] && (Rank(s[0].kind) < Rank(t[0].kind) || (s[0].kind == t[0].kind && NotAfter(s[1..], t[1..]))))
  }

  /** Of all scripts that keep a longest common subsequence, the walk is the first in dictionary
      order: together with minimality this pins the output down completely. */
  lemma {:induction false} WalkIsFirstMinimal(a: seq<string>, b: seq<string>, i: nat, j: nat, t: Script)
    requires i <= |a| && j <= |b| && Transforms(t, a[i..], b[j..]) && SameCount(t) == Lcs(a, b, i, j)
    ensures NotAfter(Walk(a, b, i, j), t)
    decreases |t|
  {
    var w := Walk(a, b, i, j);
    WalkTransforms(a, b, i, j);
    if w != [] {
      CountsAddUp(t);
      assert t != [];
      assert t[0].kind != Add ==>
               && i < |a| && a[i] == OldTexts(t)[0] && OldTexts(t)[1..] == OldTexts(t[1..])
               && a[i..][1..] == a[i + 1..];
      assert t[0].kind != Del ==>
               && j < |b| && b[j] == NewTexts(t)[0] && NewTexts(t)[1..] == NewTexts(t[1..])
               && b[j..][1..] == b[j + 1..];
      match t[0].kind {
        case Same => WalkIsFirstMinimal(a, b, i + 1, j + 1, t[1..]);
        case Del =>
          ScriptKeepsAtMostLcs(t[1..], a, b, i + 1, j);
          LcsStep(a, b, i, j);
          if w[0].kind == Del { WalkIsFirstMinimal(a, b, i + 1, j, t[1..]); }
        case Add =>
          ScriptKeepsAtMostLcs(t[1..], a, b, i, j + 1);
          LcsStep(a, b, i, j);
          if w[0].kind == Add { WalkIsFirstMinimal(a, b, i, j + 1, t[1..]); }
      }
    }
  }
}
