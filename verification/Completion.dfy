/** Autocompletion of references: web/src/lib/refs.ts (`detectTrigger`, `suggestTypesFor`) finds what is
    being typed, web/src/components/editor/SuggestionList.tsx (`suggestionInsertText`) prints the
    chosen item, and the tokenizer has to read the same reference back. */
module Completion {
  import opened Wrappers
  import opened Refs

  datatype TriggerKind = HashSign | AtSign | OpenBrackets

  datatype ActiveTrigger = ActiveTrigger(kind: TriggerKind, query: string, start: nat, end: nat)

  datatype ItemKind = UserItem | RequirementItem | DocumentItem

  datatype Item = Item(kind: ItemKind, refKey: string, title: string)

  /** No bracket that would close, and no line break, from `i` on. */
  predicate StaysOpen(s: string, i: nat) {
    forall k :: i <= k < |s| ==> s[k] != ']' && s[k] != '\n'
  }

  /** Two brackets, from `i` on, with at most sixty characters after them that keep them open: the leftmost. */
  function OpenWiki(s: string, i: nat): (r: Option<nat>)
    ensures r.Some? ==> r.value + 2 <= |s| && Doubled(s, r.value, '[') && StaysOpen(s, r.value + 2)
    decreases |s| - i
  {
    if i + 2 > |s| then None
    else if Doubled(s, i, '[') && |s| - (i + 2) <= 60 && StaysOpen(s, i + 2) then Some(i)
    else OpenWiki(s, i + 1)
  }

  /** Where the run of query characters before `i` starts. */
  function QueryStart(u: Unicode, s: string, i: nat): (b: nat)
    requires i <= |s|
    ensures b <= i && (forall k :: b <= k < i ==> In(u, QueryChar, s[k])) && (b > 0 ==> !In(u, QueryChar, s[b - 1]))
  {
    if i > 0 && In(u, QueryChar, s[i - 1]) then QueryStart(u, s, i - 1) else i
  }

  /** The caret is a position in the text, as a text field reports it. */
  function DetectTrigger(u: Unicode, value: string, caret: nat): (r: Option<ActiveTrigger>)
    requires caret <= |value|
  {
    var before := value[..caret];
    var wiki := OpenWiki(before, 0);
    if wiki.Some? then Some(ActiveTrigger(OpenBrackets, before[wiki.value + 2..], wiki.value, caret))
    else
      var q := QueryStart(u, before, caret);
      if caret - q <= 40 && q > 0 && before[q - 1] in {'#', '@'} && (q == 1 || Opening(before[q - 2])) then
        Some(ActiveTrigger(if before[q - 1] == '#' then HashSign else AtSign, before[q..], q - 1, caret))
      else None
  }

  /** What is offered for a trigger. */
  function SuggestTypesFor(t: ActiveTrigger): seq<ItemKind> {
    match t.kind
    case OpenBrackets => [DocumentItem, RequirementItem]
    case HashSign => [RequirementItem]
    case AtSign => if t.query != "" && Digit(t.query[0]) then [RequirementItem] else [UserItem, RequirementItem]
  }

  /** Brackets at `i` with at most sixty characters after them, none of which closes them or ends the line. */
  ghost predicate BracketsOpenAt(before: string, i: nat) {
    && i + 2 <= |before| <= i + 62 && before[i] == before[i + 1] == '['
    && forall k :: i + 2 <= k < |before| ==> before[k] != ']' && before[k] != '\n'
  }

  /** A sign at `i`, first in the text or after white space or certain punctuation, with at most forty
      letters, numbers, dots, underscores and dashes after it. */
  ghost predicate SignAt(u: Unicode, before: string, i: nat) {
    && i < |before| <= i + 41 && (before[i] == '#' || before[i] == '@')
    && (i > 0 ==> Space(before[i - 1]) || before[i - 1] in "([{>,;:!?\U{A1}\U{BF}")
    && forall k :: i < k < |before| ==> u.letter(before[k]) || u.number(before[k]) || before[k] in "._-"
  }

  lemma {:induction false} OpenWikiIsLeftmost(s: string, i: nat)
    ensures var r := OpenWiki(s, i);
      && (r.Some? ==> i <= r.value && BracketsOpenAt(s, r.value))
      && forall k: nat :: i <= k && BracketsOpenAt(s, k) ==> r.Some? && r.value <= k
    decreases |s| - i
  {
    if i + 2 <= |s| && !BracketsOpenAt(s, i) { OpenWikiIsLeftmost(s, i + 1); }
  }

  /** The sign stands right before the run of query characters. */
  lemma {:induction false} QueryStartsAfter(u: Unicode, s: string, e: nat, i: nat)
    requires i < e <= |s| && !In(u, QueryChar, s[i]) && forall k :: i < k < e ==> In(u, QueryChar, s[k])
    ensures QueryStart(u, s, e) == i + 1
  {
    if i + 1 < e { QueryStartsAfter(u, s, e - 1, i); }
  }

  /** The leftmost brackets that are still open at the caret are completed, if there are any; otherwise the
      sign before the caret is, if there is one; otherwise nothing is. */
  lemma TriggerIff(u: Unicode, value: string, caret: nat, t: ActiveTrigger)
    requires Agrees(u) && caret <= |value|
    ensures DetectTrigger(u, value, caret) == Some(t) <==>
      && t.start < t.end == caret
      && var before := value[..caret];
         if exists i: nat :: BracketsOpenAt(before, i) then
           && t.kind == OpenBrackets && BracketsOpenAt(before, t.start) && t.query == value[t.start + 2..caret]
           && forall i: nat :: BracketsOpenAt(before, i) ==> t.start <= i
         else
           && SignAt(u, before, t.start) && t.query == value[t.start + 1..caret]
           && t.kind == if value[t.start] == '#' then HashSign else AtSign
  {
    var before := value[..caret];
    OpenWikiIsLeftmost(before, 0);
    if OpenWiki(before, 0).Some? {
      assert before[OpenWiki(before, 0).value + 2..] == value[OpenWiki(before, 0).value + 2..caret];
    } else {
      SignIff(u, before, t.start);
      var q := QueryStart(u, before, caret);
      assert before[q..] == value[q..caret];
    }
  }

  lemma SignIff(u: Unicode, before: string, i: nat)
    requires Agrees(u)
    ensures var q := QueryStart(u, before, |before|);
      SignAt(u, before, i) <==> i + 1 == q && |before| - q <= 40 && before[i] in {'#', '@'}
                                && (i == 0 || Opening(before[i - 1]))
  {
    if SignAt(u, before, i) { QueryStartsAfter(u, before, |before|, i); }
  }

  /** Users are offered after an at sign, unless a digit follows it, documents after brackets, and requirements
      always; what the trigger names first is offered first. */
  lemma OffersByText(u: Unicode, value: string, caret: nat, t: ActiveTrigger)
    requires Agrees(u) && caret <= |value| && DetectTrigger(u, value, caret) == Some(t)
    ensures t.start < caret
    ensures SuggestTypesFor(t) ==
      if value[t.start] == '[' then [DocumentItem, RequirementItem]
      else if value[t.start] == '@' && !(t.start + 1 < caret && '0' <= value[t.start + 1] <= '9')
        then [UserItem, RequirementItem]
      else [RequirementItem]
  {
    TriggerIff(u, value, caret, t);
    var before := value[..caret];
    assert before[t.start] == value[t.start];
  }

  function InsertText(item: Item): string {
    match item.kind
    case UserItem => "@" + item.refKey + " "
    case RequirementItem => "#" + item.refKey + " "
    case DocumentItem => "[[" + item.title + "]] "
  }

  /** The text after the completion has been accepted. */
  function Accept(value: string, t: ActiveTrigger, item: Item): string
    requires t.start <= t.end <= |value|
  {
    value[..t.start] + InsertText(item) + value[t.end..]
  }

  // -------------------------------------------------------- where references stand

  /** The references of a token list with the positions of their first characters. */
  function Positions(ts: seq<RefToken>, off: nat): set<(RefToken, nat)>
    decreases |ts|
  {
    if ts == [] then {}
    else (if ts[0].Plain? then {} else {(ts[0], off)}) + Positions(ts[1..], off + |Raw(ts[0])|)
  }

  lemma {:induction false} PositionsAppend(x: seq<RefToken>, y: seq<RefToken>, off: nat)
    ensures Positions(x + y, off) == Positions(x, off) + Positions(y, off + |Render(x)|)
    decreases |x|
  {
    if x == [] {
      assert x + y == y;
    } else {
      assert (x + y)[1..] == x[1..] + y;
      PositionsAppend(x[1..], y, off + |Raw(x[0])|);
    }
  }

  lemma PositionsOne(t: RefToken, off: nat)
    ensures Positions([t], off) == if t.Plain? then {} else {(t, off)}
  {
    assert [t][1..] == [];
  }

  lemma AddKeepsPositions(out: seq<RefToken>, t: RefToken)
    ensures Positions(Add(out, t), 0) == Positions(out, 0) + (if t.Plain? then {} else {(t, |Render(out)|)})
  {
    PositionsOne(t, |Render(out)|);
    PositionsAppend(out, [t], 0);
    if t.Plain? && out != [] && out[|out| - 1].Plain? {
      MergeKeepsPositions(out[..|out| - 1], out[|out| - 1], Plain(out[|out| - 1].value + t.value));
      assert out == out[..|out| - 1] + [out[|out| - 1]];
    }
  }

  lemma MergeKeepsPositions(front: seq<RefToken>, x: RefToken, y: RefToken)
    requires x.Plain? && y.Plain?
    ensures Positions(front + [x], 0) == Positions(front + [y], 0)
  {
    PositionsOne(x, |Render(front)|);
    PositionsOne(y, |Render(front)|);
    PositionsAppend(front, [x], 0);
    PositionsAppend(front, [y], 0);
  }

  lemma {:induction false} AddAllKeepsPositions(out: seq<RefToken>, ts: seq<RefToken>)
    ensures Positions(AddAll(out, ts), 0) == Positions(out, 0) + Positions(ts, |Render(out)|)
    decreases |ts|
  {
    if ts != [] {
      AddKeepsPositions(out, ts[0]);
      AddRenders(out, ts[0]);
      AddAllKeepsPositions(Add(out, ts[0]), ts[1..]);
    }
  }

  lemma PositionsThree(x: RefToken, y: RefToken, z: RefToken, rest: seq<RefToken>, off: nat)
    requires x.Plain? && !y.Plain? && z.Plain?
    ensures Positions([x, y, z] + rest, off)
         == {(y, off + |Raw(x)|)} + Positions(rest, off + |Raw(x)| + |Raw(y)| + |Raw(z)|)
  {
    var xyz, yz, z_ := [x, y, z] + rest, [y, z] + rest, [z] + rest;
    assert xyz[1..] == yz && yz[1..] == z_ && z_[1..] == rest;
    assert Positions(xyz, off) == Positions(yz, off + |Raw(x)|);
    assert Positions(yz, off + |Raw(x)|) == {(y, off + |Raw(x)|)} + Positions(z_, off + |Raw(x)| + |Raw(y)|);
  }

  /** The references of a scan with the positions of their first characters. */
  function Found(ms: seq<Match>): set<(RefToken, nat)> {
    if ms == [] then {} else {(ms[0].token, ms[0].prefixEnd)} + Found(ms[1..])
  }

  lemma {:induction false} FoundIsScanned(ms: seq<Match>, tok: RefToken, off: nat)
    ensures (tok, off) in Found(ms) <==> exists m :: m in ms && m.token == tok && m.prefixEnd == off
  {
    if ms != [] { FoundIsScanned(ms[1..], tok, off); }
  }

  lemma MatchLength(s: string, last: nat, m: Match)
    requires last <= m.start && Matches(s, m.start, m)
    ensures last + |s[last..m.prefixEnd]| == m.prefixEnd
    ensures m.prefixEnd + |Raw(m.token)| + |Trailing(s, m)| == m.end
  {
    MatchSplits(s, last, m);
  }

  /** The same with the lengths added up. */
  lemma PositionsOfThree(x: RefToken, y: RefToken, z: RefToken, rest: seq<RefToken>, off: nat, mid: nat, end: nat)
    requires x.Plain? && !y.Plain? && z.Plain? && off + |Raw(x)| == mid && mid + |Raw(y)| + |Raw(z)| == end
    ensures Positions([x, y, z] + rest, off) == {(y, mid)} + Positions(rest, end)
  {
    PositionsThree(x, y, z, rest, off);
  }

  lemma PieceStands(s: string, last: nat, m: Match, rest: seq<RefToken>)
    requires last <= m.start && Matches(s, m.start, m)
    ensures Positions([Plain(s[last..m.prefixEnd]), m.token, Plain(Trailing(s, m))] + rest, last)
         == {(m.token, m.prefixEnd)} + Positions(rest, m.end)
  {
    MatchLength(s, last, m);
    var x, z := Plain(s[last..m.prefixEnd]), Plain(Trailing(s, m));
    PositionsOfThree(x, m.token, z, rest, last, m.prefixEnd, m.end);
  }

  lemma {:induction false} PiecesStandWhereFound(s: string, last: nat, ms: seq<Match>)
    requires last <= |s| && Chain(s, last, ms)
    ensures Positions(Pieces(s, last, ms), last) == Found(ms)
    decreases |ms|
  {
    if ms == [] {
      PositionsOne(Plain(s[last..]), last);
    } else {
      PiecesStandWhereFound(s, ms[0].end, ms[1..]);
      PieceStands(s, last, ms[0], Pieces(s, ms[0].end, ms[1..]));
    }
  }

  /** The references of the tokens are those of the scan, at the same places. */
  lemma TokensStandWhereScanned(u: Unicode, s: string, tok: RefToken, off: nat)
    ensures (tok, off) in Positions(Tokens(u, s), 0) <==>
        exists m :: m in Scan(u, s, 0) && m.token == tok && m.prefixEnd == off
  {
    AddAllKeepsPositions([], Pieces(s, 0, Scan(u, s, 0)));
    PiecesStandWhereFound(s, 0, Scan(u, s, 0));
    FoundIsScanned(Scan(u, s, 0), tok, off);
  }

  /** A match is reached unless an earlier one runs into it. */
  lemma {:induction false} MatchIsReached(u: Unicode, s: string, last: nat, q: nat)
    requires last <= q < |s| && MatchAt(u, s, q).Some?
    requires forall i :: last <= i < q && MatchAt(u, s, i).Some? ==> MatchAt(u, s, i).value.end <= q
    ensures MatchAt(u, s, q).value in Scan(u, s, last)
    decreases |s| - last
  {
    NextIsMatch(u, s, last);
    var m := Next(u, s, last).value;
    if m.start < q { MatchIsReached(u, s, m.end, q); }
  }

  // ------------------------------------------------------------- what a match contains

  /** Neither a bracket nor a context character. */
  predicate Wordlike(c: char) { c != '[' && c != ']' && !Opening(c) }

  ghost predicate AllWordlike(s: string, i: nat, e: nat)
    requires e <= |s|
  {
    forall k :: i <= k < e ==> Wordlike(s[k])
  }

  lemma KeyNumberIsWordlike(u: Unicode, s: string, i: nat, e: nat)
    requires KeyNumberSpan(u, s, i, e)
    ensures AllWordlike(s, i, e)
  {
    var d: nat :| KeySpan(s, i, d) && NumberSpan(u, s, d + 1, e);
    forall k | i <= k < e ensures Wordlike(s[k]) {
      if d < k { assert Digit(s[k]); }
    }
  }

  lemma SigilIsWordlike(u: Unicode, s: string, i: nat, e: nat)
    requires SigilSpan(u, s, i, e)
    ensures AllWordlike(s, i, e)
  {
    if KeyNumberSpan(u, s, i + 1, e) {
      KeyNumberIsWordlike(u, s, i + 1, e);
    } else {
      assert NumberSpan(u, s, i + 1, e);
    }
    forall k | i <= k < e ensures Wordlike(s[k]) {}
  }

  /** So is every reference that is not a wikilink. */
  lemma BodyIsWordlike(u: Unicode, alt: Alt, s: string, i: nat)
    requires Agrees(u) && alt != Wiki && BodyOf(u, alt, s, i).Some?
    ensures AllWordlike(s, i, BodyOf(u, alt, s, i).value.end)
  {
    var e := BodyOf(u, alt, s, i).value.end;
    match alt
    case Sigil =>
      SigilIff(u, s, i, e);
      SigilIsWordlike(u, s, i, e);
    case Bare =>
      BareIff(u, s, i, e);
      KeyNumberIsWordlike(u, s, i, e);
    case At => MentionIff(u, s, i, e);
  }

  /** A match is a context, or none, and a body. */
  lemma AltHasBody(u: Unicode, alt: Alt, s: string, i: nat)
    requires AltAt(u, alt, s, i).Some?
    ensures var m := AltAt(u, alt, s, i).value; BodyOf(u, alt, s, m.prefixEnd) == Some(Body(m.end, m.token))
  {}

  lemma BodyIsNoWikilink(u: Unicode, alt: Alt, s: string, i: nat)
    requires alt != Wiki && BodyOf(u, alt, s, i).Some?
    ensures !BodyOf(u, alt, s, i).value.token.Wikilink?
  {}

  lemma AltIsWordlike(u: Unicode, alt: Alt, s: string, i: nat)
    requires Agrees(u) && alt != Wiki && AltAt(u, alt, s, i).Some?
    ensures var m := AltAt(u, alt, s, i).value; !m.token.Wikilink? && AllWordlike(s, m.prefixEnd, m.end)
  {
    AltHasBody(u, alt, s, i);
    var p := AltAt(u, alt, s, i).value.prefixEnd;
    BodyIsWordlike(u, alt, s, p);
    BodyIsNoWikilink(u, alt, s, p);
  }

  /** The four alternatives in order. */
  lemma MatchAtIsFirst(u: Unicode, s: string, i: nat)
    ensures MatchAt(u, s, i) ==
      if AltAt(u, Wiki, s, i).Some? then AltAt(u, Wiki, s, i)
      else if AltAt(u, Sigil, s, i).Some? then AltAt(u, Sigil, s, i)
      else if AltAt(u, Bare, s, i).Some? then AltAt(u, Bare, s, i)
      else AltAt(u, At, s, i)
  {
    var four, three, two, one := ALTERNATIVES, [Sigil, Bare, At], [Bare, At], [At];
    assert four[1..] == three && three[1..] == two && two[1..] == one && one[1..] == [];
    assert FirstOf(u, one, s, i) == AltAt(u, At, s, i);
    assert FirstOf(u, two, s, i) == if AltAt(u, Bare, s, i).Some? then AltAt(u, Bare, s, i) else FirstOf(u, one, s, i);
    assert FirstOf(u, three, s, i) == if AltAt(u, Sigil, s, i).Some? then AltAt(u, Sigil, s, i)
        else FirstOf(u, two, s, i);
  }

  /** A match is either a wikilink, or wordlike after its context. */
  lemma MatchShape(u: Unicode, s: string, i: nat)
    requires Agrees(u) && MatchAt(u, s, i).Some?
    ensures var m := MatchAt(u, s, i).value;
      if m.token.Wikilink? then
        m.prefixEnd == i && WikiBody(u, s, i) == Some(Body(m.end, m.token)) && m.end >= 2 && WikiSpan(s, i, m.end - 2)
      else WikiBody(u, s, i) == None && AllWordlike(s, m.prefixEnd, m.end)
  {
    MatchAtIsFirst(u, s, i);
    if WikiBody(u, s, i).Some? {
      WikiIff(u, s, i, WikiBody(u, s, i).value.end - 2);
    } else {
      if AltAt(u, Sigil, s, i).Some? { AltIsWordlike(u, Sigil, s, i); }
      if AltAt(u, Bare, s, i).Some? { AltIsWordlike(u, Bare, s, i); }
      if AltAt(u, At, s, i).Some? { AltIsWordlike(u, At, s, i); }
    }
  }

  /** A wikilink that starts before `p` and is still open there. */
  ghost predicate InsideWikilink(s: string, p: nat) {
    exists i: nat, g: nat :: i < p && WikiSpan(s, i, g) && p < g + 2
  }

  /** Two wikilinks that overlap end at the same brackets. */
  lemma OverlappingWikilinks(s: string, n: nat, g': nat, i: nat, g: nat)
    requires WikiSpan(s, n, g') && WikiSpan(s, i, g) && n <= i < g' + 2
    ensures g' == g
  {
    assert s[g'] == ']' && s[g' + 1] == ']' && s[g] == ']' && s[i] == '[' && s[i + 1] == '[';
    assert i + 2 <= g';
    assert !(n + 2 <= g < g') && !(i + 2 <= g' < g);
  }

  /** A match that runs into a wikilink is itself a wikilink, and ends with it. */
  lemma MatchRunsInto(u: Unicode, s: string, n: nat, i: nat, g: nat)
    requires Agrees(u) && WikiSpan(s, i, g) && n <= i && MatchAt(u, s, n).Some? && i < MatchAt(u, s, n).value.end
    ensures MatchAt(u, s, n).value.end == g + 2 && MatchAt(u, s, n).value.prefixEnd == n
  {
    var m := MatchAt(u, s, n).value;
    MatchShape(u, s, n);
    if n == i { WikiIff(u, s, i, g); }
    assert !Wordlike(s[i]);
    OverlappingWikilinks(s, n, m.end - 2, i, g);
  }

  /** A wikilink is a match, so the next match starts no later. */
  lemma NextBeforeWikilink(u: Unicode, s: string, last: nat, i: nat, g: nat)
    requires last <= i && WikiSpan(s, i, g)
    ensures Next(u, s, last).Some? && Next(u, s, last).value.start <= i
    ensures Next(u, s, last) == MatchAt(u, s, Next(u, s, last).value.start)
  {
    WikiIff(u, s, i, g);
    MatchAtIsFirst(u, s, i);
    NextIsMatch(u, s, last);
  }

  /** Nothing is found inside a wikilink. */
  lemma {:induction false} NothingFoundInside(u: Unicode, s: string, last: nat, i: nat, g: nat, m: Match)
    requires Agrees(u) && last <= i && WikiSpan(s, i, g) && m in Scan(u, s, last)
    ensures !(i < m.prefixEnd < g + 2)
    decreases |s| - last
  {
    NextBeforeWikilink(u, s, last, i, g);
    var first := Next(u, s, last).value;
    if first.end <= i {
      if m != first { NothingFoundInside(u, s, first.end, i, g, m); }
    } else {
      MatchRunsInto(u, s, first.start, i, g);
      if m != first { ScanIsMatched(u, s, first.end, m); }
    }
  }

  // --------------------------------------------------------------------- round trip

  /** (KEY-NUMBER) as the database builds it. */
  ghost predicate IsRefKey(u: Unicode, k: string) { KeyNumberSpan(u, k, 0, |k|) }

  /** The check constraint on handles. */
  ghost predicate IsHandle(h: string) {
    && 1 <= |h| <= 40 && Lower(h[0])
    && forall k :: 0 <= k < |h| ==> Lower(h[k]) || Digit(h[k]) || h[k] in {'.', '_', '-'}
  }

  /** A title that survives between brackets. */
  predicate IsTitle(t: string) {
    t != "" && ']' !in t && '|' !in t && '\n' !in t && Trim(t) == t
  }

  /** What the database guarantees of a suggested item. Titles are free text. */
  ghost predicate Stored(u: Unicode, item: Item) {
    match item.kind
    case UserItem => IsHandle(item.refKey)
    case RequirementItem => IsRefKey(u, item.refKey)
    case DocumentItem => true
  }

  /** What the grammar can express. */
  predicate Printable(item: Item) {
    match item.kind
    case UserItem => item.refKey != "" && item.refKey[|item.refKey| - 1] !in {'.', '_', '-'}
    case RequirementItem => true
    case DocumentItem => IsTitle(item.title)
  }

  /** The reference that the item stands for. */
  function ReadsAs(item: Item): RefToken {
    match item.kind
    case UserItem => Mention("@" + item.refKey, item.refKey)
    case RequirementItem => Requirement("#" + item.refKey, item.refKey)
    case DocumentItem => Wikilink("[[" + item.title + "]]", item.title, None)
  }

  lemma HandleIsRead(u: Unicode, s: string, p: nat, h: string)
    requires Agrees(u) && IsHandle(h) && h[|h| - 1] !in {'.', '_', '-'}
    requires p + 1 + |h| < |s| && s[p] == '@' && s[p + 1..p + 1 + |h|] == h && s[p + 1 + |h|] == ' '
    ensures MentionBody(u, s, p) == Some(Body(p + 1 + |h|, Mention("@" + h, h))) && SigilBody(u, s, p) == None
  {
    forall k | 0 <= k < |h| ensures s[p + 1 + k] == h[k] {
      assert s[p + 1..p + 1 + |h|][k] == h[k];
    }
    var e := p + 1 + |h|;
    forall k | p + 2 <= k < e ensures In(u, HandleChar, s[k]) {
      assert s[k] == h[k - p - 1];
    }
    RunIs(u, HandleChar, s, p + 2, e);
    assert s[p + 1] == h[0];
    assert LowerCase(h) == h;
    RunIs(u, DigitChar, s, p + 1, p + 1);
  }

  lemma RefKeyIsRead(u: Unicode, s: string, p: nat, key: string)
    requires Agrees(u) && IsRefKey(u, key)
    requires p + 1 + |key| < |s| && s[p] == '#' && s[p + 1..p + 1 + |key|] == key && s[p + 1 + |key|] == ' '
    ensures SigilBody(u, s, p) == Some(Body(p + 1 + |key|, Requirement("#" + key, key)))
  {
    var e := p + 1 + |key|;
    forall k | p + 1 <= k < e ensures s[k] == key[k - (p + 1)] {
      assert s[p + 1..e][k - (p + 1)] == s[k];
    }
    ShiftedKey(u, key, s, p + 1);
    hide KeyNumberSpan, SigilBody;
    SigilFromKey(u, s, p, e);
    assert s[p..e] == "#" + s[p + 1..e];
  }

  lemma SigilFromKey(u: Unicode, s: string, i: nat, e: nat)
    requires Agrees(u) && i < |s| && s[i] in {'#', '@'} && KeyNumberSpan(u, s, i + 1, e) && e <= |s|
    ensures SigilBody(u, s, i) == Some(Body(e, Requirement(s[i..e], s[i + 1..e])))
  {
    KeyNumberIff(u, s, i + 1, e);
  }

  /** A key keeps its shape when it is copied into a text, followed by a space. */
  lemma ShiftedKey(u: Unicode, key: string, s: string, p: nat)
    requires Agrees(u) && IsRefKey(u, key)
    requires p + |key| < |s| && s[p + |key|] == ' ' && forall k :: p <= k < p + |key| ==> s[k] == key[k - p]
    ensures KeyNumberSpan(u, s, p, p + |key|)
  {
    var d: nat :| KeySpan(key, 0, d) && NumberSpan(u, key, d + 1, |key|);
    forall k | p < k < p + d ensures Upper(s[k]) || Digit(s[k]) { assert s[k] == key[k - p]; }
    forall k | p + d + 1 <= k < p + |key| ensures Digit(s[k]) { assert s[k] == key[k - p]; }
    assert KeySpan(s, p, p + d) && NumberSpan(u, s, p + d + 1, p + |key|);
  }

  lemma TitleIsRead(u: Unicode, s: string, p: nat, title: string)
    requires IsTitle(title)
    requires p + 4 + |title| <= |s| && Doubled(s, p, '[') && s[p + 2..p + 2 + |title|] == title
        && Doubled(s, p + 2 + |title|, ']')
    ensures WikiBody(u, s, p) == Some(Body(p + 4 + |title|, Wikilink("[[" + title + "]]", title, None)))
  {
    var g := p + 2 + |title|;
    forall k | p + 2 <= k < g ensures In(u, TargetChar, s[k]) {
      assert s[k] == title[k - p - 2] && title[k - p - 2] in title;
    }
    RunIs(u, TargetChar, s, p + 2, g);
    assert s[p..g + 2] == "[[" + title + "]]";
  }

  /** Where the match of an inserted reference starts: one character earlier, if there is one, unless
      the reference needs no context. */
  function StartOf(kind: TriggerKind, p: nat): nat {
    if kind == OpenBrackets || p == 0 then p else p - 1
  }

  /** `p` is where a reference may be inserted: the start of the text or right after a context character;
      a wikilink may stand anywhere. */
  ghost predicate Insertable(kind: TriggerKind, s: string, p: nat) {
    p <= |s| && (kind == OpenBrackets || p == 0 || Opening(s[p - 1]))
  }

  lemma TriggerIsInsertable(u: Unicode, value: string, caret: nat, t: ActiveTrigger)
    requires caret <= |value| && DetectTrigger(u, value, caret) == Some(t)
    ensures t.start <= t.end == caret && Insertable(t.kind, value, t.start)
    ensures t.kind == OpenBrackets ==> Doubled(value, t.start, '[')
  {
    var before := value[..caret];
    if OpenWiki(before, 0) == None {
      var q := QueryStart(u, before, caret);
      if q >= 2 { assert before[q - 2] == value[q - 2]; }
    }
  }

  /** Only a wikilink can run into an insertion point. */
  lemma NothingElseRunsInto(u: Unicode, kind: TriggerKind, s: string, p: nat, i: nat)
    requires Agrees(u) && Insertable(kind, s, p) && (kind == OpenBrackets ==> p < |s| && s[p] == '[')
    requires !InsideWikilink(s, p) && i < StartOf(kind, p) && MatchAt(u, s, i).Some?
    ensures MatchAt(u, s, i).value.end <= StartOf(kind, p)
  {
    MatchShape(u, s, i);
    var m := MatchAt(u, s, i).value;
    var q := StartOf(kind, p);
    if m.token.Wikilink? {
      assert WikiSpan(s, i, m.end - 2) && m.end <= p;
      if kind != OpenBrackets && p > 0 { assert s[m.end - 1] == ']' && s[p - 1] != ']'; }
    } else {
      assert q < |s| && !Wordlike(s[q]);
    }
  }

  /** A context character starts no reference but a wikilink. */
  lemma ContextStartsNothing(u: Unicode, s: string, q: nat)
    requires Agrees(u) && q < |s| && Opening(s[q])
    ensures SigilBody(u, s, q) == None && BareBody(u, s, q) == None && MentionBody(u, s, q) == None
    ensures !Rejects(u, Sigil, s[q]) && !Rejects(u, Bare, s[q]) && !Rejects(u, At, s[q])
  {}

  /** An alternative read as a match with context up to `p`. */
  function WithContext(q: nat, p: nat, b: Option<Body>): Option<Match> {
    if b.Some? then Some(Match(q, p, b.value.end, b.value.token)) else None
  }

  lemma AltAfterContext(u: Unicode, alt: Alt, s: string, q: nat)
    requires Agrees(u) && alt != Wiki && q < |s| && Opening(s[q])
    ensures AltAt(u, alt, s, q) == WithContext(q, q + 1, BodyOf(u, alt, s, q + 1))
  {
    ContextStartsNothing(u, s, q);
  }

  lemma AltAtStart(u: Unicode, alt: Alt, s: string)
    requires alt != Wiki && s != "" && (Rejects(u, alt, s[0]) || BodyOf(u, alt, s, 0).Some?)
    ensures AltAt(u, alt, s, 0) == WithContext(0, 0, BodyOf(u, alt, s, 0))
  {}

  lemma NoWikiAt(u: Unicode, s: string, q: nat)
    requires !Doubled(s, q, '[')
    ensures AltAt(u, Wiki, s, q) == None
  {}

  /** An alternative that can be read at an insertion point is a match together with the context. */
  lemma AltHere(u: Unicode, alt: Alt, kind: TriggerKind, s: string, p: nat)
    requires Agrees(u) && alt != Wiki && kind != OpenBrackets && Insertable(kind, s, p) && p < |s|
    requires p == 0 ==> Rejects(u, alt, s[0]) || BodyOf(u, alt, s, 0).Some?
    ensures AltAt(u, alt, s, StartOf(kind, p)) == WithContext(StartOf(kind, p), p, BodyOf(u, alt, s, p))
  {
    if p == 0 { AltAtStart(u, alt, s); } else { AltAfterContext(u, alt, s, p - 1); }
  }

  /** The first alternative that applies decides. */
  lemma FirstApplies(u: Unicode, s: string, q: nat)
    requires AltAt(u, Wiki, s, q) == None
    ensures AltAt(u, Sigil, s, q).Some? ==> MatchAt(u, s, q) == AltAt(u, Sigil, s, q)
    ensures AltAt(u, Sigil, s, q) == None && AltAt(u, Bare, s, q) == None ==> MatchAt(u, s, q) == AltAt(u, At, s, q)
  {
    MatchAtIsFirst(u, s, q);
  }

  /** A reference that starts with a sigil matches together with the context before it. */
  lemma SigilMatches(u: Unicode, kind: TriggerKind, s: string, p: nat)
    requires Agrees(u) && kind != OpenBrackets && Insertable(kind, s, p) && p < |s| && s[p] in {'#', '@'}
    requires SigilBody(u, s, p).Some?
    ensures MatchAt(u, s, StartOf(kind, p)) == WithContext(StartOf(kind, p), p, SigilBody(u, s, p))
  {
    NoWikiAt(u, s, StartOf(kind, p));
    AltHere(u, Sigil, kind, s, p);
    FirstApplies(u, s, StartOf(kind, p));
  }

  /** No alternative before the mention applies. */
  lemma OnlyMention(u: Unicode, kind: TriggerKind, s: string, p: nat)
    requires Agrees(u) && kind != OpenBrackets && Insertable(kind, s, p) && p < |s| && s[p] == '@'
    requires SigilBody(u, s, p) == None
    ensures AltAt(u, Sigil, s, StartOf(kind, p)) == None && AltAt(u, Bare, s, StartOf(kind, p)) == None
  {
    assert BareBody(u, s, p) == None;
    AltHere(u, Sigil, kind, s, p);
    AltHere(u, Bare, kind, s, p);
  }

  lemma MentionMatches(u: Unicode, kind: TriggerKind, s: string, p: nat)
    requires Agrees(u) && kind != OpenBrackets && Insertable(kind, s, p) && p < |s| && s[p] == '@'
    requires SigilBody(u, s, p) == None && MentionBody(u, s, p).Some?
    ensures MatchAt(u, s, StartOf(kind, p)) == WithContext(StartOf(kind, p), p, MentionBody(u, s, p))
  {
    NoWikiAt(u, s, StartOf(kind, p));
    OnlyMention(u, kind, s, p);
    AltHere(u, At, kind, s, p);
    FirstApplies(u, s, StartOf(kind, p));
  }

  /** Copying a word into a text puts its characters there. */
  lemma Copied(s: string, front: string, word: string, back: string)
    requires s == front + word + back
    ensures |front| + |word| <= |s| && s[|front|..|front| + |word|] == word
  {}

  lemma KeyedText(s: string, p: nat, sigil: string, key: string, rest: string)
    requires p <= |s| && |sigil| == 1 && s == s[..p] + (sigil + key + " ") + rest
    ensures p + 1 + |key| < |s| && s[p] == sigil[0] && s[p + 1..p + 1 + |key|] == key && s[p + 1 + |key|] == ' '
  {
    assert s == (s[..p] + sigil) + key + (" " + rest);
    Copied(s, s[..p] + sigil, key, " " + rest);
  }

  /** A document reference in its place. */
  lemma DocumentText(s: string, p: nat, title: string, rest: string)
    requires p <= |s| && s == s[..p] + ("[[" + title + "]] ") + rest
    ensures p + 4 + |title| <= |s| && Doubled(s, p, '[') && s[p + 2..p + 2 + |title|] == title
        && Doubled(s, p + 2 + |title|, ']')
  {
    assert s == (s[..p] + "[[") + title + ("]] " + rest);
    Copied(s, s[..p] + "[[", title, "]] " + rest);
  }

  /** `item` is matched at `p` of a text. */
  ghost predicate MatchedAt(u: Unicode, kind: TriggerKind, s: string, p: nat, item: Item) {
    var m := MatchAt(u, s, StartOf(kind, p));
    StartOf(kind, p) < |s| && m.Some? && m.value.token == ReadsAs(item) && m.value.prefixEnd == p
  }

  lemma DocumentMatches(u: Unicode, s: string, p: nat, item: Item, rest: string)
    requires item.kind == DocumentItem && IsTitle(item.title) && p <= |s| && s == s[..p] + InsertText(item) + rest
    ensures MatchedAt(u, OpenBrackets, s, p, item)
  {
    DocumentText(s, p, item.title, rest);
    TitleIsRead(u, s, p, item.title);
    MatchAtIsFirst(u, s, p);
  }

  lemma KeyIsThere(u: Unicode, s: string, p: nat, item: Item, rest: string)
    requires Agrees(u) && item.kind == RequirementItem && IsRefKey(u, item.refKey)
    requires p <= |s| && s == s[..p] + InsertText(item) + rest
    ensures p < |s| && s[p] == '#' && SigilBody(u, s, p).Some? && SigilBody(u, s, p).value.token == ReadsAs(item)
  {
    KeyedText(s, p, "#", item.refKey, rest);
    RefKeyIsRead(u, s, p, item.refKey);
  }

  lemma RequirementMatches(u: Unicode, kind: TriggerKind, s: string, p: nat, item: Item, rest: string)
    requires Agrees(u) && item.kind == RequirementItem && IsRefKey(u, item.refKey)
    requires Insertable(kind, s, p) && kind != OpenBrackets && s == s[..p] + InsertText(item) + rest
    ensures MatchedAt(u, kind, s, p, item)
  {
    KeyIsThere(u, s, p, item, rest);
    SigilMatches(u, kind, s, p);
  }

  lemma UserMatches(u: Unicode, kind: TriggerKind, s: string, p: nat, item: Item, rest: string)
    requires Agrees(u) && item.kind == UserItem && IsHandle(item.refKey) && Printable(item)
    requires Insertable(kind, s, p) && kind != OpenBrackets && s == s[..p] + InsertText(item) + rest
    ensures MatchedAt(u, kind, s, p, item)
  {
    KeyedText(s, p, "@", item.refKey, rest);
    HandleIsRead(u, s, p, item.refKey);
    MentionMatches(u, kind, s, p);
  }

  /** Trimming only removes characters, and there is nothing left to trim. */
  lemma TrimFacts(x: string)
    ensures Trim(Trim(x)) == Trim(x) && forall c <- Trim(x) :: c in x
  {
    TrimIff(x, Trim(x));
    var i: nat, j: nat :| Stretch(x, i, j) && Trim(x) == x[i..j];
    assert Stretch(x[i..j], 0, j - i);
    StretchIsTrim(x[i..j], 0, j - i);
  }

  lemma TargetIsTitle(u: Unicode, s: string, p: nat, title: string, rest: string)
    requires p <= |s| && s == s[..p] + ("[[" + title + "]] ") + rest
    requires WikiBody(u, s, p).Some? && WikiBody(u, s, p).value.token.target == title
    ensures IsTitle(title)
  {
    var t := Run(u, TargetChar, s, p + 2);
    TrimFacts(s[p + 2..t]);
    forall c | c in title ensures c != ']' && c != '|' && c != '\n' {
      assert c in s[p + 2..t];
    }
    assert s[p + 2] == ("[[" + title + "]] ")[2] == (title + "]] ")[0];
  }

  /** The scan arrives at a reference that stands at `p`. */
  ghost predicate ReadAt(u: Unicode, s: string, item: Item, p: nat) {
    exists m :: m in Scan(u, s, 0) && m.token == ReadsAs(item) && m.prefixEnd == p
  }

  lemma MatchIsPrintable(u: Unicode, s: string, p: nat, item: Item, rest: string, q: nat)
    requires Agrees(u) && Stored(u, item) && p <= |s| && s == s[..p] + InsertText(item) + rest
    requires MatchAt(u, s, q).Some? && MatchAt(u, s, q).value.token == ReadsAs(item)
        && MatchAt(u, s, q).value.prefixEnd == p
    ensures Printable(item)
  {
    if item.kind == DocumentItem {
      MatchShape(u, s, q);
      TargetIsTitle(u, s, p, item.title, rest);
    } else {
      FirstOfIsFaithful(u, ALTERNATIVES, s, q);
    }
  }

  /** What the grammar cannot express is not read back, ... */
  lemma UnprintableIsNotRead(u: Unicode, s: string, p: nat, item: Item, rest: string)
    requires Agrees(u) && Stored(u, item) && !Printable(item) && p <= |s| && s == s[..p] + InsertText(item) + rest
    ensures !ReadAt(u, s, item, p)
  {
    if m :| m in Scan(u, s, 0) && m.token == ReadsAs(item) && m.prefixEnd == p {
      hide Printable, WikiSpan, Stored, InsertText;
      ScanIsMatched(u, s, 0, m);
      MatchIsPrintable(u, s, p, item, rest, m.start);
    }
  }

  /** ... nor is what a wikilink swallows, ... */
  lemma SwallowedIsNotRead(u: Unicode, s: string, p: nat, item: Item)
    requires Agrees(u) && InsideWikilink(s, p)
    ensures !ReadAt(u, s, item, p)
  {
    var i: nat, g: nat :| i < p && WikiSpan(s, i, g) && p < g + 2;
    forall m | m in Scan(u, s, 0) ensures m.prefixEnd != p {
      NothingFoundInside(u, s, 0, i, g, m);
    }
  }

  /** ... but everything else is. */
  lemma InsertedIsRead(u: Unicode, kind: TriggerKind, s: string, p: nat, item: Item, rest: string)
    requires Agrees(u) && Stored(u, item) && Printable(item) && Insertable(kind, s, p)
    requires (kind == OpenBrackets) == (item.kind == DocumentItem) && s == s[..p] + InsertText(item) + rest
    requires !InsideWikilink(s, p)
    ensures ReadAt(u, s, item, p)
  {
    match item.kind {
      case DocumentItem =>
        DocumentText(s, p, item.title, rest);
        DocumentMatches(u, s, p, item, rest);
      case RequirementItem => RequirementMatches(u, kind, s, p, item, rest);
      case UserItem => UserMatches(u, kind, s, p, item, rest);
    }
    assert MatchedAt(u, kind, s, p, item);
    var q := StartOf(kind, p);
    forall i | 0 <= i < q && MatchAt(u, s, i).Some? ensures MatchAt(u, s, i).value.end <= q {
      NothingElseRunsInto(u, kind, s, p, i);
    }
    MatchIsReached(u, s, 0, q);
  }

  lemma ReadIff(u: Unicode, kind: TriggerKind, s: string, p: nat, item: Item, rest: string)
    requires Agrees(u) && Stored(u, item) && Insertable(kind, s, p)
        && (kind == OpenBrackets) == (item.kind == DocumentItem)
    requires s == s[..p] + InsertText(item) + rest
    ensures ReadAt(u, s, item, p) <==> Printable(item) && !InsideWikilink(s, p)
  {
    if !Printable(item) {
      UnprintableIsNotRead(u, s, p, item, rest);
    } else if InsideWikilink(s, p) {
      SwallowedIsNotRead(u, s, p, item);
    } else {
      InsertedIsRead(u, kind, s, p, item, rest);
    }
  }

  // ------------------------------------------------------------------- main results

  /** The reference and a space replace what was typed since the trigger; the text around it stays. */
  lemma AcceptPrints(value: string, t: ActiveTrigger, item: Item)
    requires t.start <= t.end <= |value|
    ensures Accept(value, t, item) == value[..t.start] + (Raw(ReadsAs(item)) + " ") + value[t.end..]
  {}

  lemma CompletionIsRead(u: Unicode, value: string, t: ActiveTrigger, item: Item)
    requires Agrees(u) && Stored(u, item) && t.start <= t.end <= |value| && Insertable(t.kind, value, t.start)
    requires item.kind in SuggestTypesFor(t) && (t.kind == OpenBrackets ==> item.kind == DocumentItem)
    ensures (ReadsAs(item), t.start) in Positions(Tokens(u, Accept(value, t, item)), 0)
       <==> Printable(item) && !InsideWikilink(Accept(value, t, item), t.start)
  {
    var s, p, rest := Accept(value, t, item), t.start, value[t.end..];
    assert s[..p] == value[..p];
    if p > 0 { assert s[p - 1] == value[p - 1]; }
    ReadIff(u, t.kind, s, p, item, rest);
    TokensStandWhereScanned(u, s, ReadsAs(item), p);
  }

  /** Accepting a completion round-trips: of the text that results, the tokenizer reads exactly the
      chosen reference at exactly the place where the trigger started, if and only if the item can be
      written in the grammar and the trigger did not stand inside a wikilink. */
  lemma CompletionRoundTrip(u: Unicode, value: string, caret: nat, t: ActiveTrigger, item: Item)
    requires Agrees(u) && Stored(u, item)
    requires caret <= |value| && DetectTrigger(u, value, caret) == Some(t)
    requires item.kind in SuggestTypesFor(t) && (t.kind == OpenBrackets ==> item.kind == DocumentItem)
    ensures t.start <= t.end <= |value|
    ensures Accept(value, t, item) == value[..t.start] + (Raw(ReadsAs(item)) + " ") + value[caret..]
    ensures (ReadsAs(item), t.start) in Positions(Tokens(u, Accept(value, t, item)), 0)
       <==> Printable(item) && !InsideWikilink(Accept(value, t, item), t.start)
  {
    hide DetectTrigger, Tokens, Positions, Printable, Stored, ReadAt, Insertable, ReadsAs;
    TriggerIsInsertable(u, value, caret, t);
    AcceptPrints(value, t, item);
    CompletionIsRead(u, value, t, item);
  }

  /** In particular it round-trips whenever no bracket precedes the trigger. */
  lemma NoBracketNoSurprise(u: Unicode, value: string, caret: nat, t: ActiveTrigger, item: Item)
    requires Agrees(u) && Stored(u, item) && Printable(item)
    requires caret <= |value| && DetectTrigger(u, value, caret) == Some(t)
    requires item.kind in SuggestTypesFor(t) && (t.kind == OpenBrackets ==> item.kind == DocumentItem)
    requires '[' !in value[..t.start]
    ensures t.start <= t.end <= |value|
    ensures (ReadsAs(item), t.start) in Positions(Tokens(u, Accept(value, t, item)), 0)
  {
    CompletionRoundTrip(u, value, caret, t, item);
    var s := Accept(value, t, item);
    forall i: nat, g: nat | i < t.start ensures !WikiSpan(s, i, g) {
      assert s[i] == value[..t.start][i];
    }
  }
}
