/** web/src/lib/refs.ts and web/src/components/editor/SuggestionList.tsx: requirements that are offered after
    brackets, and so may be put where a reference to one cannot be read. */
module Brackets {
  import opened Wrappers
  import opened Refs
  import opened Completion

  /** What a requirement or a mention starts with. */
  predicate Sign(c: char) { c == '#' || c == '@' }

  lemma KeyNumberHasNoSign(u: Unicode, s: string, i: nat, e: nat)
    requires KeyNumberSpan(u, s, i, e)
    ensures forall k :: i <= k < e ==> !Sign(s[k])
  {
    var d: nat :| KeySpan(s, i, d) && NumberSpan(u, s, d + 1, e);
    forall k | i <= k < e ensures !Sign(s[k]) {
      if d < k { assert Digit(s[k]); }
    }
  }

  /** A sign can only be the first character of a reference. */
  lemma SignIsFirst(u: Unicode, alt: Alt, s: string, i: nat)
    requires Agrees(u) && alt != Wiki && BodyOf(u, alt, s, i).Some?
    ensures forall k :: i < k < BodyOf(u, alt, s, i).value.end ==> !Sign(s[k])
  {
    var e := BodyOf(u, alt, s, i).value.end;
    match alt
    case Sigil =>
      SigilIff(u, s, i, e);
      if KeyNumberSpan(u, s, i + 1, e) {
        KeyNumberHasNoSign(u, s, i + 1, e);
      } else {
        assert NumberSpan(u, s, i + 1, e);
      }
    case Bare =>
      BareIff(u, s, i, e);
      KeyNumberHasNoSign(u, s, i, e);
    case At => MentionIff(u, s, i, e);
  }

  lemma SignIsFirstOfMatch(u: Unicode, s: string, i: nat)
    requires Agrees(u) && MatchAt(u, s, i).Some? && !MatchAt(u, s, i).value.token.Wikilink?
    ensures var m := MatchAt(u, s, i).value; forall k :: m.prefixEnd < k < m.end ==> !Sign(s[k])
  {
    MatchAtIsFirst(u, s, i);
    var m := MatchAt(u, s, i).value;
    var alt := if AltAt(u, Wiki, s, i).Some? then Wiki else if AltAt(u, Sigil, s, i).Some? then Sigil
               else if AltAt(u, Bare, s, i).Some? then Bare else At;
    if alt != Wiki { SignIsFirst(u, alt, s, m.prefixEnd); }
  }

  /** A match is reached unless one that is found before it runs into it. */
  lemma {:induction false} MatchIsFound(u: Unicode, s: string, last: nat, q: nat)
    requires last <= q < |s| && MatchAt(u, s, q).Some?
    requires forall m <- Scan(u, s, last) :: m.start < q ==> m.end <= q
    ensures MatchAt(u, s, q).value in Scan(u, s, last)
    decreases |s| - last
  {
    NextIsMatch(u, s, last);
    var first := Next(u, s, last).value;
    assert Scan(u, s, last) == [first] + Scan(u, s, first.end);
    assert first in Scan(u, s, last);
    if first.start < q {
      assert forall m <- Scan(u, s, first.end) :: m in Scan(u, s, last);
      MatchIsFound(u, s, first.end, q);
    }
  }

  /** Two matches of a scan do not overlap. */
  lemma {:induction false} ScanIsDisjoint(u: Unicode, s: string, last: nat, m: Match, n: Match)
    requires last <= |s| && m in Scan(u, s, last) && n in Scan(u, s, last) && m.start < n.start
    ensures m.end <= n.start
    decreases |s| - last
  {
    var first := Next(u, s, last).value;
    assert Scan(u, s, last) == [first] + Scan(u, s, first.end);
    if m == first {
      if n != first { ScanIsMatched(u, s, first.end, n); }
    } else {
      ScanIsMatched(u, s, first.end, m);
      if n != first { ScanIsDisjoint(u, s, first.end, m, n); }
    }
  }

  /** A requirement with a sign is read after a context character, or at the start of the text. */
  lemma SignNeedsContext(u: Unicode, s: string, i: nat)
    requires Agrees(u) && MatchAt(u, s, i).Some? && MatchAt(u, s, i).value.token.Requirement?
    requires var m := MatchAt(u, s, i).value; m.prefixEnd < |s| && Sign(s[m.prefixEnd])
    ensures var p := MatchAt(u, s, i).value.prefixEnd;
            p == i == 0 || (p == i + 1 && !Rejects(u, Sigil, s[i]))
  {
    MatchAtIsFirst(u, s, i);
    var m := MatchAt(u, s, i).value;
    assert BareBody(u, s, m.prefixEnd) == None;
  }

  /** A reference ends right before `p`. */
  ghost predicate ReferenceEndsAt(u: Unicode, s: string, p: nat) {
    exists m :: m in Scan(u, s, 0) && m.end == p
  }

  lemma SigilMatchesHere(u: Unicode, s: string, p: nat)
    requires Agrees(u) && p < |s| && Sign(s[p]) && SigilBody(u, s, p).Some?
    requires p > 0 ==> !Rejects(u, Sigil, s[p - 1])
    ensures var q := if p == 0 then 0 else p - 1; MatchAt(u, s, q) == WithContext(q, p, SigilBody(u, s, p))
  {
    var q := if p == 0 then 0 else p - 1;
    NoWikiAt(u, s, q);
    if p == 0 {
      AltAtStart(u, Sigil, s);
    } else {
      assert SigilBody(u, s, q) == None;
    }
    MatchAtIsFirst(u, s, q);
  }

  /** Only a wikilink runs over a sign. */
  lemma RunsOverTheSign(u: Unicode, s: string, p: nat, m: Match)
    requires Agrees(u) && p < |s| && Sign(s[p]) && m in Scan(u, s, 0) && m.start + 1 < p < m.end
    ensures InsideWikilink(s, p)
  {
    ScanIsMatched(u, s, 0, m);
    MatchShape(u, s, m.start);
    if m.token.Wikilink? {
      assert WikiSpan(s, m.start, m.end - 2) && p < (m.end - 2) + 2;
    } else {
      SignIsFirstOfMatch(u, s, m.start);
      assert false;
    }
  }

  /** And only a wikilink, or a reference that ends there, comes close to one. */
  lemma NothingReachesTheSign(u: Unicode, s: string, p: nat, m: Match)
    requires Agrees(u) && 0 < p < |s| && Sign(s[p]) && !ReferenceEndsAt(u, s, p) && !InsideWikilink(s, p)
    requires m in Scan(u, s, 0) && m.start < p - 1
    ensures m.end <= p - 1
  {
    assert m.end != p;
    if m.end > p {
      RunsOverTheSign(u, s, p, m);
      assert false;
    }
  }

  lemma SigilIsReached(u: Unicode, s: string, p: nat)
    requires Agrees(u) && p < |s| && Sign(s[p]) && SigilBody(u, s, p).Some? && !InsideWikilink(s, p)
    requires p > 0 ==> !Rejects(u, Sigil, s[p - 1]) && !ReferenceEndsAt(u, s, p)
    ensures exists m :: m in Scan(u, s, 0) && m.token == SigilBody(u, s, p).value.token && m.prefixEnd == p
  {
    SigilMatchesHere(u, s, p);
    var q := if p == 0 then 0 else p - 1;
    forall m | m in Scan(u, s, 0) && m.start < q ensures m.end <= q {
      NothingReachesTheSign(u, s, p, m);
    }
    MatchIsFound(u, s, 0, q);
  }

  lemma RejectedIsNotRead(u: Unicode, s: string, p: nat, m: Match)
    requires Agrees(u) && 0 < p < |s| && Sign(s[p]) && Rejects(u, Sigil, s[p - 1])
    requires m in Scan(u, s, 0) && m.token.Requirement?
    ensures m.prefixEnd != p
  {
    ScanIsMatched(u, s, 0, m);
    if m.prefixEnd == p { SignNeedsContext(u, s, m.start); }
  }

  lemma TakenIsNotRead(u: Unicode, s: string, p: nat, m: Match, n: Match)
    requires Agrees(u) && 0 < p < |s| && Sign(s[p]) && m in Scan(u, s, 0) && m.token.Requirement?
    requires n in Scan(u, s, 0) && n.end == p
    ensures m.prefixEnd != p
  {
    hide Scan, MatchAt, Rejects;
    ScanIsMatched(u, s, 0, m);
    ScanIsMatched(u, s, 0, n);
    if m.prefixEnd == p {
      SignNeedsContext(u, s, m.start);
      if n.start < m.start { ScanIsDisjoint(u, s, 0, n, m); }
    }
  }

  // ------------------------------------------------------------ the text before the sign

  /** Reading a text only up to `p` gives the same reference, if it gives one. */
  ghost predicate SameSpan(m: Option<Match>, n: Option<Match>) {
    && m.Some? == n.Some?
    && (m.Some? ==>
          m.value.start == n.value.start && m.value.prefixEnd == n.value.prefixEnd && m.value.end == n.value.end)
  }

  lemma SpansOfPrefix(u: Unicode, s: string, p: nat, i: nat, e: nat)
    requires Agrees(u) && i < p < |s| && Sign(s[p])
    ensures NumberSpan(u, s[..p], i, e) <==> NumberSpan(u, s, i, e)
    ensures KeySpan(s[..p], i, e) <==> KeySpan(s, i, e)
    ensures MentionSpan(s[..p], i, e) <==> MentionSpan(s, i, e)
  {
    var pre := s[..p];
    assert forall k :: 0 <= k < p ==> pre[k] == s[k];
    assert !Digit(s[p]) && !Upper(s[p]);
  }

  lemma KeyNumberOfPrefix(u: Unicode, s: string, p: nat, i: nat, e: nat)
    requires Agrees(u) && i < p < |s| && Sign(s[p])
    ensures KeyNumberSpan(u, s[..p], i, e) <==> KeyNumberSpan(u, s, i, e)
  {
    forall d: nat
      ensures KeySpan(s[..p], i, d) && NumberSpan(u, s[..p], d + 1, e)
         <==> KeySpan(s, i, d) && NumberSpan(u, s, d + 1, e)
    {
      SpansOfPrefix(u, s, p, i, d);
      if d + 1 < p { SpansOfPrefix(u, s, p, d + 1, e); }
    }
  }

  /** A wikilink that is closed before `p` is one of both texts. */
  lemma WikiOfPrefix(u: Unicode, s: string, p: nat, i: nat, g: nat)
    requires i < p < |s| && Sign(s[p]) && !InsideWikilink(s, p)
    ensures WikiSpan(s[..p], i, g) <==> WikiSpan(s, i, g)
  {
    var pre := s[..p];
    assert forall k :: 0 <= k < p ==> pre[k] == s[k];
  }

  ghost predicate SameEnd(b: Option<Body>, c: Option<Body>) {
    b.Some? == c.Some? && (b.Some? ==> b.value.end == c.value.end)
  }

  lemma BodyOfPrefix(u: Unicode, alt: Alt, s: string, p: nat, i: nat)
    requires Agrees(u) && i < p < |s| && Sign(s[p]) && !InsideWikilink(s, p)
    ensures SameEnd(BodyOf(u, alt, s[..p], i), BodyOf(u, alt, s, i))
  {
    var pre := s[..p];
    var b, c := BodyOf(u, alt, pre, i), BodyOf(u, alt, s, i);
    if b.Some? { EndOfPrefix(u, alt, s, p, i, b.value.end); }
    if c.Some? { EndOfPrefix(u, alt, s, p, i, c.value.end); }
  }

  lemma EndOfPrefix(u: Unicode, alt: Alt, s: string, p: nat, i: nat, e: nat)
    requires Agrees(u) && i < p < |s| && Sign(s[p]) && !InsideWikilink(s, p)
    ensures EndsAt(u, alt, s[..p], i, e) <==> EndsAt(u, alt, s, i, e)
  {
    match alt
    case Wiki => WikiEndOfPrefix(u, s, p, i, e);
    case Sigil => SigilEndOfPrefix(u, s, p, i, e);
    case Bare =>
      BareIff(u, s[..p], i, e);
      BareIff(u, s, i, e);
      KeyNumberOfPrefix(u, s, p, i, e);
    case At => MentionEndOfPrefix(u, s, p, i, e);
  }

  ghost predicate EndsAt(u: Unicode, alt: Alt, s: string, i: nat, e: nat) {
    BodyOf(u, alt, s, i).Some? && BodyOf(u, alt, s, i).value.end == e
  }

  lemma WikiEndsLate(u: Unicode, s: string, i: nat)
    ensures WikiBody(u, s, i).Some? ==> WikiBody(u, s, i).value.end >= 2
  {}

  lemma WikiEndOfPrefix(u: Unicode, s: string, p: nat, i: nat, e: nat)
    requires i < p < |s| && Sign(s[p]) && !InsideWikilink(s, p)
    ensures EndsAt(u, Wiki, s[..p], i, e) <==> EndsAt(u, Wiki, s, i, e)
  {
    hide WikiBody, WikiSpan, InsideWikilink, Fits;
    var pre := s[..p];
    WikiEndsLate(u, pre, i);
    WikiEndsLate(u, s, i);
    if e >= 2 {
      WikiIff(u, pre, i, e - 2);
      WikiIff(u, s, i, e - 2);
      WikiOfPrefix(u, s, p, i, e - 2);
    }
  }

  lemma SigilEndOfPrefix(u: Unicode, s: string, p: nat, i: nat, e: nat)
    requires Agrees(u) && i < p < |s| && Sign(s[p])
    ensures EndsAt(u, Sigil, s[..p], i, e) <==> EndsAt(u, Sigil, s, i, e)
  {
    SigilIff(u, s[..p], i, e);
    SigilIff(u, s, i, e);
    SigilOfPrefix(u, s, p, i, e);
  }

  lemma MentionEndOfPrefix(u: Unicode, s: string, p: nat, i: nat, e: nat)
    requires Agrees(u) && i < p < |s| && Sign(s[p])
    ensures EndsAt(u, At, s[..p], i, e) <==> EndsAt(u, At, s, i, e)
  {
    var pre := s[..p];
    MentionIff(u, pre, i, e);
    MentionIff(u, s, i, e);
    forall longer: nat ensures MentionSpan(pre, i, longer) <==> MentionSpan(s, i, longer) {
      SpansOfPrefix(u, s, p, i, longer);
    }
  }

  lemma SigilOfPrefix(u: Unicode, s: string, p: nat, i: nat, e: nat)
    requires Agrees(u) && i < p < |s| && Sign(s[p])
    ensures SigilSpan(u, s[..p], i, e) <==> SigilSpan(u, s, i, e)
  {
    if i + 1 < p {
      SpansOfPrefix(u, s, p, i + 1, e);
      KeyNumberOfPrefix(u, s, p, i + 1, e);
    }
  }

  lemma BodyIsLong(u: Unicode, alt: Alt, s: string, i: nat)
    requires BodyOf(u, alt, s, i).Some?
    ensures i + 2 <= BodyOf(u, alt, s, i).value.end
  {}

  lemma AltOfPrefix(u: Unicode, alt: Alt, s: string, p: nat, i: nat)
    requires Agrees(u) && i + 1 < p < |s| && Sign(s[p]) && !InsideWikilink(s, p)
    ensures SameSpan(AltAt(u, alt, s[..p], i), AltAt(u, alt, s, i))
  {
    hide BodyOf, Rejects, InsideWikilink, Fits;
    BodyOfPrefix(u, alt, s, p, i);
    BodyOfPrefix(u, alt, s, p, i + 1);
    assert s[..p][i] == s[i];
  }

  lemma MatchOfPrefix(u: Unicode, s: string, p: nat, i: nat)
    requires Agrees(u) && i + 1 < p < |s| && Sign(s[p]) && !InsideWikilink(s, p)
    ensures SameSpan(MatchAt(u, s[..p], i), MatchAt(u, s, i))
  {
    MatchAtIsFirst(u, s[..p], i);
    MatchAtIsFirst(u, s, i);
    AltOfPrefix(u, Wiki, s, p, i);
    AltOfPrefix(u, Sigil, s, p, i);
    AltOfPrefix(u, Bare, s, p, i);
    AltOfPrefix(u, At, s, p, i);
  }

  /** A match reaches two characters beyond its context. */
  lemma MatchIsLong(u: Unicode, s: string, i: nat)
    requires MatchAt(u, s, i).Some?
    ensures var m := MatchAt(u, s, i).value; m.start == i && i + 2 <= m.end <= |s|
  {
    MatchAtIsFirst(u, s, i);
    var m := MatchAt(u, s, i).value;
    var alt := if AltAt(u, Wiki, s, i).Some? then Wiki else if AltAt(u, Sigil, s, i).Some? then Sigil
               else if AltAt(u, Bare, s, i).Some? then Bare else At;
    assert AltAt(u, alt, s, i) == Some(m);
    BodyIsLong(u, alt, s, m.prefixEnd);
  }

  lemma ScanStepsOn(u: Unicode, s: string, last: nat)
    requires last <= |s|
    ensures Next(u, s, last) == None ==> Scan(u, s, last) == []
    ensures Next(u, s, last).Some? ==>
              Scan(u, s, last) == [Next(u, s, last).value] + Scan(u, s, Next(u, s, last).value.end)
  {}

  /** Where the text up to `p` has its next match, so has the whole text. */
  lemma NextOfPrefix(u: Unicode, s: string, p: nat, last: nat)
    requires Agrees(u) && last <= p < |s| && Sign(s[p]) && !InsideWikilink(s, p) && Next(u, s[..p], last).Some?
    ensures SameSpan(Next(u, s[..p], last), Next(u, s, last))
  {
    var pre := s[..p];
    var m := Next(u, pre, last).value;
    NextIsMatch(u, pre, last);
    NextIsMatch(u, s, last);
    MatchIsLong(u, pre, m.start);
    MatchOfPrefix(u, s, p, m.start);
    forall k | last <= k < m.start ensures MatchAt(u, s, k) == None {
      MatchOfPrefix(u, s, p, k);
    }
  }

  /** And where it has none, every match of the whole text reaches beyond `p`. */
  lemma NoneOfPrefix(u: Unicode, s: string, p: nat, last: nat, m: Match)
    requires Agrees(u) && last <= p < |s| && Sign(s[p]) && !InsideWikilink(s, p) && Next(u, s[..p], last) == None
    requires m in Scan(u, s, last)
    ensures m.end > p
  {
    ScanIsMatched(u, s, last, m);
    MatchIsLong(u, s, m.start);
    NextIsMatch(u, s[..p], last);
    if m.start + 1 < p { MatchOfPrefix(u, s, p, m.start); }
  }

  lemma {:induction false} EndsOfPrefix(u: Unicode, s: string, p: nat, last: nat)
    requires Agrees(u) && last <= p < |s| && Sign(s[p]) && !InsideWikilink(s, p)
    ensures (exists m :: m in Scan(u, s, last) && m.end == p) <==>
        (exists m :: m in Scan(u, s[..p], last) && m.end == p)
    decreases p - last
  {
    var pre := s[..p];
    ScanStepsOn(u, pre, last);
    ScanStepsOn(u, s, last);
    if Next(u, pre, last) == None {
      forall m | m in Scan(u, s, last) ensures m.end != p { NoneOfPrefix(u, s, p, last, m); }
    } else {
      NextOfPrefix(u, s, p, last);
      var m, n := Next(u, pre, last).value, Next(u, s, last).value;
      EndsOfPrefix(u, s, p, m.end);
      assert m in Scan(u, pre, last) && n in Scan(u, s, last);
      assert forall x :: x in Scan(u, pre, last) <==> x == m || x in Scan(u, pre, m.end);
      assert forall x :: x in Scan(u, s, last) <==> x == n || x in Scan(u, s, n.end);
    }
  }

  // ------------------------------------------------------------------------ main result

  /** The text ends in a reference. */
  ghost predicate EndsInReference(u: Unicode, before: string) {
    ReferenceEndsAt(u, before, |before|)
  }

  /** What may stand before a requirement: nothing, or a text whose last character leaves it alone and is
      not part of a reference. */
  ghost predicate LeavesAlone(u: Unicode, before: string) {
    before == "" || (!Rejects(u, Sigil, before[|before| - 1]) && !EndsInReference(u, before))
  }

  /** The page reads this reference here. */
  ghost predicate PageReads(u: Unicode, s: string, p: nat, token: RefToken) {
    exists m :: m in Scan(u, s, 0) && m.prefixEnd == p && m.token == token
  }

  lemma NotReadInside(u: Unicode, s: string, p: nat, token: RefToken)
    requires Agrees(u) && InsideWikilink(s, p)
    ensures !PageReads(u, s, p, token)
  {
    var i: nat, g: nat :| i < p && WikiSpan(s, i, g) && p < g + 2;
    forall m | m in Scan(u, s, 0) ensures m.prefixEnd != p {
      NothingFoundInside(u, s, 0, i, g, m);
    }
  }

  lemma SigilIsRequirement(u: Unicode, s: string, p: nat)
    requires SigilBody(u, s, p).Some?
    ensures SigilBody(u, s, p).value.token.Requirement?
  {}

  lemma SigilReadIff(u: Unicode, s: string, p: nat)
    requires Agrees(u) && p < |s| && Sign(s[p]) && SigilBody(u, s, p).Some?
    ensures PageReads(u, s, p, SigilBody(u, s, p).value.token) <==> LeavesAlone(u, s[..p]) && !InsideWikilink(s, p)
  {
    SigilIsRequirement(u, s, p);
    hide SigilBody, Scan, Rejects, InsideWikilink;
    var token := SigilBody(u, s, p).value.token;
    if InsideWikilink(s, p) {
      NotReadInside(u, s, p, token);
    } else {
      EndsOfPrefix(u, s, p, 0);
      if LeavesAlone(u, s[..p]) {
        SigilIsReached(u, s, p);
      } else {
        forall m | m in Scan(u, s, 0) && m.token == token ensures m.prefixEnd != p {
          if Rejects(u, Sigil, s[p - 1]) {
            RejectedIsNotRead(u, s, p, m);
          } else {
            var n :| n in Scan(u, s, 0) && n.end == p;
            TakenIsNotRead(u, s, p, m, n);
          }
        }
      }
    }
  }

  /** Brackets also offer requirements, whose references need a context that brackets do not. Such a
      completion is read back if and only if the text before the brackets is empty, or its last character
      can precede a reference and is not part of one, and the brackets are in no wikilink. */
  lemma BracketsRoundTripIff(u: Unicode, value: string, caret: nat, t: ActiveTrigger, item: Item)
    requires Agrees(u) && Stored(u, item) && item.kind == RequirementItem
    requires caret <= |value| && DetectTrigger(u, value, caret) == Some(t) && t.kind == OpenBrackets
    ensures t.start <= t.end <= |value|
    ensures var s := Accept(value, t, item);
            (ReadsAs(item), t.start) in Positions(Tokens(u, s), 0)
            <==> LeavesAlone(u, value[..t.start]) && !InsideWikilink(s, t.start)
  {
    TriggerIsInsertable(u, value, caret, t);
    var s, p, rest := Accept(value, t, item), t.start, value[t.end..];
    assert s[..p] == value[..p];
    KeyIsThere(u, s, p, item, rest);
    SigilReadIff(u, s, p);
    assert ReadAt(u, s, item, p) <==> PageReads(u, s, p, ReadsAs(item));
    TokensStandWhereScanned(u, s, ReadsAs(item), p);
  }

}
