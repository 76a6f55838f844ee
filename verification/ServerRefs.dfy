/** db/md/md_functions.sql: the server looks for wikilinks, requirements and mentions with one expression
    each; the page, with one for all (web/src/lib/refs.ts). What the two find in the same text. */
module ServerRefs {
  import opened Wrappers
  import opened Refs
  import opened Completion
  import opened Brackets

  /** The leftmost match of one alternative from `i` on. */
  function FirstAlone(u: Unicode, alt: Alt, s: string, i: nat): (r: Option<Match>)
    requires i <= |s|
    ensures r.Some? ==> i <= r.value.start < r.value.end <= |s| && AltAt(u, alt, s, r.value.start) == r
    decreases |s| - i
  {
    if i == |s| then None
    else if AltAt(u, alt, s, i).Some? then AltAt(u, alt, s, i)
    else FirstAlone(u, alt, s, i + 1)
  }

  /** regexp_matches with the flag g: each search continues where the previous match ended. */
  function ScanAlone(u: Unicode, alt: Alt, s: string, last: nat): (ms: seq<Match>)
    requires last <= |s|
    decreases |s| - last
  {
    var first := FirstAlone(u, alt, s, last);
    if first == None then [] else [first.value] + ScanAlone(u, alt, s, first.value.end)
  }

  lemma {:induction false} NothingAlone(u: Unicode, alt: Alt, s: string, i: nat, j: nat)
    requires i <= j <= |s| && forall k :: i <= k < j ==> AltAt(u, alt, s, k) == None
    ensures FirstAlone(u, alt, s, i) == FirstAlone(u, alt, s, j) && ScanAlone(u, alt, s, i) == ScanAlone(u, alt, s, j)
    decreases j - i
  {
    hide AltAt;
    if i < j { NothingAlone(u, alt, s, i + 1, j); }
  }

  lemma {:induction false} AloneIsMatched(u: Unicode, alt: Alt, s: string, last: nat, m: Match)
    requires last <= |s| && m in ScanAlone(u, alt, s, last)
    ensures last <= m.start && AltAt(u, alt, s, m.start) == Some(m)
    decreases |s| - last
  {
    var first := FirstAlone(u, alt, s, last).value;
    if m != first { AloneIsMatched(u, alt, s, first.end, m); }
  }

  /** A match of the alternative is found unless one that is found before it runs into it. */
  lemma {:induction false} AloneIsFound(u: Unicode, alt: Alt, s: string, last: nat, q: nat)
    requires last <= q < |s| && AltAt(u, alt, s, q).Some?
    requires forall m <- ScanAlone(u, alt, s, last) :: m.start < q ==> m.end <= q
    ensures AltAt(u, alt, s, q).value in ScanAlone(u, alt, s, last)
    decreases |s| - last
  {
    hide AltAt;
    if FirstAlone(u, alt, s, last) == None || FirstAlone(u, alt, s, last).value.start > q {
      FirstIsBefore(u, alt, s, last, q);
    }
    var first := FirstAlone(u, alt, s, last).value;
    assert ScanAlone(u, alt, s, last) == [first] + ScanAlone(u, alt, s, first.end);
    assert first in ScanAlone(u, alt, s, last);
    if first.start < q {
      assert forall m <- ScanAlone(u, alt, s, first.end) :: m in ScanAlone(u, alt, s, last);
      AloneIsFound(u, alt, s, first.end, q);
    }
  }

  lemma {:induction false} AloneIsDisjoint(u: Unicode, alt: Alt, s: string, last: nat, m: Match, n: Match)
    requires last <= |s| && m in ScanAlone(u, alt, s, last) && n in ScanAlone(u, alt, s, last) && m.start < n.start
    ensures m.end <= n.start
    decreases |s| - last
  {
    hide AltAt;
    var first := FirstAlone(u, alt, s, last).value;
    assert ScanAlone(u, alt, s, last) == [first] + ScanAlone(u, alt, s, first.end);
    if m == first {
      if n != first { AloneIsMatched(u, alt, s, first.end, n); }
    } else {
      AloneIsMatched(u, alt, s, first.end, m);
      if n != first { AloneIsDisjoint(u, alt, s, first.end, m, n); }
    }
  }

  lemma {:induction false} FirstIsBefore(u: Unicode, alt: Alt, s: string, last: nat, q: nat)
    requires last <= q < |s| && AltAt(u, alt, s, q).Some?
    ensures FirstAlone(u, alt, s, last).Some? && FirstAlone(u, alt, s, last).value.start <= q
    decreases |s| - last
  {
    hide AltAt;
    if AltAt(u, alt, s, last) == None { FirstIsBefore(u, alt, s, last + 1, q); }
  }

  // --------------------------------------------------------------------- wikilinks

  function Wikilinks(ms: seq<Match>): seq<Match> {
    if ms == [] then [] else (if ms[0].token.Wikilink? then [ms[0]] else []) + Wikilinks(ms[1..])
  }

  lemma NoWikilinkIn(u: Unicode, s: string, i: nat, k: nat)
    requires Agrees(u) && MatchAt(u, s, i).Some? && !MatchAt(u, s, i).value.token.Wikilink?
    requires i <= k < MatchAt(u, s, i).value.end
    ensures AltAt(u, Wiki, s, k) == None
  {
    MatchShape(u, s, i);
    if k > i { assert Wordlike(s[k]); }
  }

  lemma WikiComesFirst(u: Unicode, s: string, i: nat)
    ensures MatchAt(u, s, i) == None ==> AltAt(u, Wiki, s, i) == None
    ensures MatchAt(u, s, i).Some? && MatchAt(u, s, i).value.token.Wikilink? ==>
        AltAt(u, Wiki, s, i) == MatchAt(u, s, i)
  {
    MatchAtIsFirst(u, s, i);
  }

  lemma NoWikilinkBefore(u: Unicode, s: string, last: nat, j: nat)
    requires last <= j <= |s| && forall k :: last <= k < j ==> MatchAt(u, s, k) == None
    ensures ScanAlone(u, Wiki, s, last) == ScanAlone(u, Wiki, s, j)
        && FirstAlone(u, Wiki, s, last) == FirstAlone(u, Wiki, s, j)
  {
    forall k | last <= k < j ensures AltAt(u, Wiki, s, k) == None { WikiComesFirst(u, s, k); }
    NothingAlone(u, Wiki, s, last, j);
  }

  lemma {:induction false} SameWikilinksFrom(u: Unicode, s: string, last: nat)
    requires Agrees(u) && last <= |s|
    ensures Wikilinks(Scan(u, s, last)) == ScanAlone(u, Wiki, s, last)
    decreases |s| - last
  {
    NextIsMatch(u, s, last);
    if Next(u, s, last) == None {
      NoWikilinkBefore(u, s, last, |s|);
    } else {
      var m := Next(u, s, last).value;
      NoWikilinkBefore(u, s, last, m.start);
      SameWikilinksFrom(u, s, m.end);
      assert Scan(u, s, last)[1..] == Scan(u, s, m.end);
      WikiComesFirst(u, s, m.start);
      if !m.token.Wikilink? {
        forall k | m.start <= k < m.end ensures AltAt(u, Wiki, s, k) == None { NoWikilinkIn(u, s, m.start, k); }
        NothingAlone(u, Wiki, s, m.start, m.end);
      }
    }
  }

  /** In every text the page and the server find the same wikilinks, in the same places. */
  lemma SameWikilinks(u: Unicode, s: string)
    requires Agrees(u)
    ensures Wikilinks(Scan(u, s, 0)) == ScanAlone(u, Wiki, s, 0)
  {
    SameWikilinksFrom(u, s, 0);
  }

  // --------------------------------------------------------------- what stands where

  /** A reference of this kind stands here, after one of its context characters or at the start. */
  ghost predicate Stands(u: Unicode, alt: Alt, s: string, p: nat) {
    p < |s| && BodyOf(u, alt, s, p).Some? && (p > 0 ==> !Rejects(u, alt, s[p - 1]))
  }

  /** What the expression of each kind accepts, described without the matchers: a mention as far as it goes. */
  ghost predicate SpanOf(u: Unicode, alt: Alt, s: string, p: nat, e: nat) {
    match alt
    case Wiki => e >= 2 && WikiSpan(s, p, e - 2)
    case Sigil => SigilSpan(u, s, p, e)
    case Bare => KeyNumberSpan(u, s, p, e)
    case At => MentionSpan(s, p, e) && forall longer: nat :: MentionSpan(s, p, longer) ==> longer <= e
  }

  /** What may come right before it. */
  ghost predicate MayPrecede(u: Unicode, alt: Alt, c: char) {
    && !u.letter(c) && !u.number(c)
    && c !in (match alt case Wiki => "" case Sigil => "_/&#@" case Bare => "_/#@.-" case At => "_/@.")
  }

  /** A reference stands exactly where its expression accepts one and nothing glues it to what is before. */
  lemma StandsIff(u: Unicode, alt: Alt, s: string, p: nat, e: nat)
    requires Agrees(u) && alt != Wiki
    ensures Stands(u, alt, s, p) && BodyOf(u, alt, s, p).value.end == e
       <==> p < |s| && SpanOf(u, alt, s, p, e) && (p > 0 ==> MayPrecede(u, alt, s[p - 1]))
  {
    hide SigilSpan, KeyNumberSpan, MentionSpan;
    match alt
    case Sigil => SigilIff(u, s, p, e);
    case Bare => BareIff(u, s, p, e);
    case At => MentionIff(u, s, p, e);
  }

  /** The server reads it. */
  ghost predicate ServerReads(u: Unicode, alt: Alt, s: string, p: nat, token: RefToken) {
    exists m :: m in ScanAlone(u, alt, s, 0) && m.prefixEnd == p && m.token == token
  }

  ghost predicate ServerEndsAt(u: Unicode, alt: Alt, s: string, p: nat) {
    exists m :: m in ScanAlone(u, alt, s, 0) && m.end == p
  }

  function Before(p: nat): nat { if p == 0 then 0 else p - 1 }

  /** No alternative can start on what it takes for its context. */
  lemma FirstIsRejected(u: Unicode, alt: Alt, s: string, i: nat)
    requires Agrees(u) && alt != Wiki && BodyOf(u, alt, s, i).Some?
    ensures i + 1 < BodyOf(u, alt, s, i).value.end && Rejects(u, alt, s[i])
  {}

  lemma MatchStands(u: Unicode, alt: Alt, s: string, q: nat)
    requires Agrees(u) && alt != Wiki && AltAt(u, alt, s, q).Some?
    ensures var m := AltAt(u, alt, s, q).value;
            q == Before(m.prefixEnd) && Stands(u, alt, s, m.prefixEnd)
                && BodyOf(u, alt, s, m.prefixEnd) == Some(Body(m.end, m.token))
  {
    hide BodyOf, Rejects;
    if BodyOf(u, alt, s, q).Some? && q == 0 { FirstIsRejected(u, alt, s, q); }
  }

  lemma StandsIsMatched(u: Unicode, alt: Alt, s: string, p: nat)
    requires Agrees(u) && alt != Wiki && Stands(u, alt, s, p)
    ensures AltAt(u, alt, s, Before(p)) == WithContext(Before(p), p, BodyOf(u, alt, s, p))
  {
    hide BodyOf, Rejects, Fits;
    if p > 0 && BodyOf(u, alt, s, p - 1).Some? {
      FirstIsRejected(u, alt, s, p - 1);
      assert false;
    }
  }

  /** What comes after the first character: a requirement ends in a digit, and has nothing before it that
      another of its kind could start on or follow; a mention has no sign. */
  lemma BodyChars(u: Unicode, alt: Alt, s: string, i: nat)
    requires Agrees(u) && alt != Wiki && BodyOf(u, alt, s, i).Some?
    ensures var e := BodyOf(u, alt, s, i).value.end;
            && e <= |s| && (forall k :: i < k < e ==> !Sign(s[k]))
            && (alt != At ==> Digit(s[e - 1])) && (alt == Bare ==> forall k :: i <= k < e ==> Rejects(u, Bare, s[k]))
  {
    var e := BodyOf(u, alt, s, i).value.end;
    SignIsFirst(u, alt, s, i);
    match alt
    case Sigil => SigilIff(u, s, i, e); SpanEndsInDigit(u, s, i + 1, e);
    case Bare =>
      BareIff(u, s, i, e);
      SpanEndsInDigit(u, s, i, e);
      forall k | i <= k < e ensures Rejects(u, Bare, s[k]) { KeyNumberChars(u, s, i, e, k); }
    case At =>
  }

  lemma SpanEndsInDigit(u: Unicode, s: string, i: nat, e: nat)
    requires NumberSpan(u, s, i, e) || KeyNumberSpan(u, s, i, e)
    ensures e <= |s| && i < e && Digit(s[e - 1])
  {
    if KeyNumberSpan(u, s, i, e) {
      var d: nat :| KeySpan(s, i, d) && NumberSpan(u, s, d + 1, e);
      assert Digit(s[e - 1]);
    }
  }

  lemma KeyNumberChars(u: Unicode, s: string, i: nat, e: nat, k: nat)
    requires Agrees(u) && KeyNumberSpan(u, s, i, e) && i <= k < e
    ensures k < |s| && Rejects(u, Bare, s[k])
  {
    var d: nat :| KeySpan(s, i, d) && NumberSpan(u, s, d + 1, e);
    if d < k { assert Digit(s[k]); }
  }

  // ------------------------------------------------------------------- on the server

  /** Nothing of its own kind runs over a reference. */
  lemma AloneStopsShort(u: Unicode, alt: Alt, s: string, p: nat, m: Match)
    requires Agrees(u) && alt != Wiki && 0 < p && Stands(u, alt, s, p)
    requires m in ScanAlone(u, alt, s, 0) && m.start < p - 1
    ensures m.end <= p && (alt != At ==> m.end < p)
  {
    hide AltAt, ScanAlone, Fits;
    AloneIsMatched(u, alt, s, 0, m);
    MatchStands(u, alt, s, m.start);
    BodyChars(u, alt, s, m.prefixEnd);
    FirstChar(u, alt, s, p);
  }

  lemma FirstChar(u: Unicode, alt: Alt, s: string, p: nat)
    requires alt != Wiki && BodyOf(u, alt, s, p).Some?
    ensures p < |s| && (if alt == Bare then Upper(s[p]) else Sign(s[p]))
  {}

  /** The server reads what stands, unless something of its kind that it has read ends there. */
  lemma ServerReadsIff(u: Unicode, alt: Alt, s: string, p: nat, token: RefToken)
    requires Agrees(u) && alt != Wiki
    ensures ServerReads(u, alt, s, p, token) <==>
              Stands(u, alt, s, p) && BodyOf(u, alt, s, p).value.token == token
                  && !(p > 0 && ServerEndsAt(u, alt, s, p))
  {
    hide AltAt, ScanAlone, Fits, BodyOf, Rejects;
    if m :| m in ScanAlone(u, alt, s, 0) && m.prefixEnd == p && m.token == token {
      AloneIsMatched(u, alt, s, 0, m);
      MatchStands(u, alt, s, m.start);
      if n :| p > 0 && n in ScanAlone(u, alt, s, 0) && n.end == p {
        AloneIsMatched(u, alt, s, 0, n);
        MatchStands(u, alt, s, n.start);
        FirstIsRejected(u, alt, s, n.prefixEnd);
        AloneIsDisjoint(u, alt, s, 0, n, m);
        assert false;
      }
    } else if Stands(u, alt, s, p) && BodyOf(u, alt, s, p).value.token == token
        && !(p > 0 && ServerEndsAt(u, alt, s, p)) {
      StandsIsMatched(u, alt, s, p);
      forall m | m in ScanAlone(u, alt, s, 0) && m.start < Before(p) ensures m.end <= Before(p) {
        AloneStopsShort(u, alt, s, p, m);
      }
      AloneIsFound(u, alt, s, 0, Before(p));
    }
  }

  /** Of requirements, that is all that stand. */
  lemma ServerReadsRequirementsIff(u: Unicode, alt: Alt, s: string, p: nat, token: RefToken)
    requires Agrees(u) && (alt == Sigil || alt == Bare)
    ensures ServerReads(u, alt, s, p, token) <==> Stands(u, alt, s, p) && BodyOf(u, alt, s, p).value.token == token
  {
    hide AltAt, ScanAlone, Fits, BodyOf, Rejects;
    ServerReadsIff(u, alt, s, p, token);
    if m :| p > 0 && Stands(u, alt, s, p) && m in ScanAlone(u, alt, s, 0) && m.end == p {
      AloneIsMatched(u, alt, s, 0, m);
      MatchStands(u, alt, s, m.start);
      FirstIsRejected(u, alt, s, m.prefixEnd);
      AloneStopsShort(u, alt, s, p, m);
      assert false;
    }
  }

  // --------------------------------------------------------------------- on the page

  /** A match that is no wikilink is that of another alternative, which stands there. */
  lemma AltOfMatch(u: Unicode, s: string, m: Match) returns (alt: Alt)
    requires Agrees(u) && m in Scan(u, s, 0) && !m.token.Wikilink?
    ensures alt != Wiki && m.start == Before(m.prefixEnd) && Stands(u, alt, s, m.prefixEnd)
    ensures BodyOf(u, alt, s, m.prefixEnd) == Some(Body(m.end, m.token))
    ensures alt == At ==> AltAt(u, Sigil, s, m.start) == None
  {
    hide AltAt, MatchAt, Scan, BodyOf, Rejects, Matches, Fits;
    ScanIsMatched(u, s, 0, m);
    MatchAtIsFirst(u, s, m.start);
    alt := if AltAt(u, Wiki, s, m.start).Some? then Wiki else if AltAt(u, Sigil, s, m.start).Some? then Sigil
           else if AltAt(u, Bare, s, m.start).Some? then Bare else At;
    if alt == Wiki { WikiIsWikilink(u, s, m.start); assert false; }
    MatchStands(u, alt, s, m.start);
  }

  /** A reference on the page stands where it is read. */
  lemma PageNeeds(u: Unicode, s: string, p: nat, token: RefToken) returns (alt: Alt)
    requires Agrees(u) && PageReads(u, s, p, token) && !token.Wikilink?
    ensures alt != Wiki && Stands(u, alt, s, p) && BodyOf(u, alt, s, p).value.token == token
    ensures alt == At ==> !Stands(u, Sigil, s, p)
  {
    hide AltAt, MatchAt, Scan, BodyOf, Rejects, Matches, Fits;
    var m :| m in Scan(u, s, 0) && m.prefixEnd == p && m.token == token;
    alt := AltOfMatch(u, s, m);
    if alt == At && Stands(u, Sigil, s, p) { StandsIsMatched(u, Sigil, s, p); }
  }

  lemma WikiIsWikilink(u: Unicode, s: string, i: nat)
    requires AltAt(u, Wiki, s, i).Some?
    ensures AltAt(u, Wiki, s, i).value.token.Wikilink?
  {}

  /** What the token says of its kind. */
  lemma TokenOfKind(u: Unicode, alt: Alt, s: string, p: nat)
    requires alt != Wiki && BodyOf(u, alt, s, p).Some?
    ensures p < |s|
    ensures var token := BodyOf(u, alt, s, p).value.token;
            if alt == At then token.Mention? else token.Requirement? && (alt == Sigil <==> Sign(s[p]))
  {}

  lemma OnlyOneKind(u: Unicode, other: Alt, s: string, p: nat)
    requires p < |s| && ((other == Bare && Sign(s[p])) || (other == Sigil && !Sign(s[p])))
    ensures BodyOf(u, other, s, p) == None
  {}

  /** The first alternative that stands is the match. */
  lemma StandsIsFirst(u: Unicode, alt: Alt, s: string, p: nat)
    requires Agrees(u) && alt != Wiki && Stands(u, alt, s, p) && (alt == At ==> !Stands(u, Sigil, s, p))
    ensures MatchAt(u, s, Before(p)) == WithContext(Before(p), p, BodyOf(u, alt, s, p))
  {
    hide AltAt, MatchAt, BodyOf, Rejects, Fits;
    StandsIsMatched(u, alt, s, p);
    FirstChar(u, alt, s, p);
    NoWikiAt(u, s, Before(p));
    if alt == At {
      OnlyOneKind(u, Bare, s, p);
      OthersDoNotMatch(u, alt, Bare, s, p);
      OthersDoNotMatch(u, alt, Sigil, s, p);
    } else if alt == Bare {
      OnlyOneKind(u, Sigil, s, p);
      OthersDoNotMatch(u, alt, Sigil, s, p);
    }
    MatchAtIsFirst(u, s, Before(p));
  }

  lemma OthersDoNotMatch(u: Unicode, alt: Alt, other: Alt, s: string, p: nat)
    requires Agrees(u) && alt != Wiki && Stands(u, alt, s, p) && !Stands(u, other, s, p)
    requires (alt == At && other == Sigil) || (alt == At && other == Bare) || (alt == Bare && other == Sigil)
    ensures AltAt(u, other, s, Before(p)) == None
  {
    var q := Before(p);
    if AltAt(u, other, s, q).Some? {
      MatchStands(u, other, s, q);
      var i := AltAt(u, other, s, q).value.prefixEnd;
      assert i == 0 && p == 1;
      NotBeforeASign(u, alt, other, s);
      assert false;
    }
  }

  /** At the very start, the context character of one is no beginning of another. */
  lemma NotBeforeASign(u: Unicode, alt: Alt, other: Alt, s: string)
    requires Agrees(u) && Stands(u, alt, s, 1)
    requires (alt == At && other == Sigil) || (alt == At && other == Bare) || (alt == Bare && other == Sigil)
    ensures BodyOf(u, other, s, 0) == None
  {
    FirstChar(u, alt, s, 1);
    if BodyOf(u, other, s, 0).Some? {
      FirstChar(u, other, s, 0);
      BodyChars(u, other, s, 0);
      FirstIsRejected(u, other, s, 0);
      assert false;
    }
  }

  /** What stands is read, unless something that is read reaches it. */
  lemma StandsIsRead(u: Unicode, alt: Alt, s: string, p: nat)
    requires Agrees(u) && alt != Wiki && Stands(u, alt, s, p) && (alt == At ==> !Stands(u, Sigil, s, p))
    requires forall m <- Scan(u, s, 0) :: m.start < Before(p) ==> m.end <= Before(p)
    ensures PageReads(u, s, p, BodyOf(u, alt, s, p).value.token)
  {
    hide AltAt, MatchAt, Scan, BodyOf, Rejects, Fits;
    StandsIsFirst(u, alt, s, p);
    MatchIsFound(u, s, 0, Before(p));
  }

  // ------------------------------------------------------------- the page and the server

  /** Of the requirements with a sign that the server finds, the page reads exactly those that are in no
      wikilink and do not follow a reference directly; and no others. */
  lemma PageReadsSigilIff(u: Unicode, s: string, p: nat, token: RefToken)
    requires Agrees(u) && p < |s| && Sign(s[p]) && token.Requirement?
    ensures PageReads(u, s, p, token) <==>
              ServerReads(u, Sigil, s, p, token) && !InsideWikilink(s, p) && !EndsInReference(u, s[..p])
  {
    hide AltAt, MatchAt, ScanAlone, Scan, BodyOf, Rejects, Fits, InsideWikilink;
    ServerReadsRequirementsIff(u, Sigil, s, p, token);
    if PageReads(u, s, p, token) {
      var alt := PageNeeds(u, s, p, token);
      TokenOfKind(u, alt, s, p);
    }
    if Stands(u, Sigil, s, p) && BodyOf(u, Sigil, s, p).value.token == token {
      SigilIsBody(u, s, p);
      SigilReadIff(u, s, p);
      if p == 0 { assert s[..p] == ""; NothingEndsInEmpty(u); }
    }
  }

  lemma SigilIsBody(u: Unicode, s: string, p: nat)
    ensures BodyOf(u, Sigil, s, p) == SigilBody(u, s, p)
  {}

  lemma NothingEndsInEmpty(u: Unicode)
    ensures !EndsInReference(u, "")
  {
    assert Scan(u, "", 0) == [];
  }

  /** In a wikilink, or right after one. */
  ghost predicate TouchesWikilink(s: string, p: nat) {
    exists i: nat, g: nat :: i < p && WikiSpan(s, i, g) && p <= g + 2
  }

  lemma {:induction false} NothingStartsInside(u: Unicode, s: string, last: nat, i: nat, g: nat, m: Match)
    requires Agrees(u) && last <= i && WikiSpan(s, i, g) && m in Scan(u, s, last)
    ensures !(i < m.start < g + 2)
    decreases |s| - last
  {
    NextBeforeWikilink(u, s, last, i, g);
    var first := Next(u, s, last).value;
    if first.end <= i {
      if m != first { NothingStartsInside(u, s, first.end, i, g, m); }
    } else {
      MatchRunsInto(u, s, first.start, i, g);
      if m != first { ScanIsMatched(u, s, first.end, m); }
    }
  }

  /** Only a wikilink reaches a bare key. */
  lemma ReachesTheKey(u: Unicode, s: string, p: nat, m: Match)
    requires Agrees(u) && 0 < p && Stands(u, Bare, s, p) && m in Scan(u, s, 0) && m.start < p - 1 < m.end
    ensures TouchesWikilink(s, p)
  {
    hide AltAt, MatchAt, Scan, BodyOf, Matches, Fits;
    if m.token.Wikilink? {
      ScanIsMatched(u, s, 0, m);
      MatchShape(u, s, m.start);
      assert WikiSpan(s, m.start, m.end - 2) && p <= (m.end - 2) + 2;
    } else {
      var alt := AltOfMatch(u, s, m);
      BodyIsRejected(u, alt, s, m.prefixEnd, p - 1);
      assert false;
    }
  }

  /** Nothing in a reference that is no wikilink can be the context of a bare key. */
  lemma BodyIsRejected(u: Unicode, alt: Alt, s: string, i: nat, k: nat)
    requires Agrees(u) && alt != Wiki && BodyOf(u, alt, s, i).Some? && i <= k < BodyOf(u, alt, s, i).value.end
    ensures k < |s| && Rejects(u, Bare, s[k])
  {
    var e := BodyOf(u, alt, s, i).value.end;
    match alt
    case Sigil => SigilIff(u, s, i, e); if k > i { SpanIsRejected(u, s, i + 1, e, k); }
    case Bare => BareIff(u, s, i, e); SpanIsRejected(u, s, i, e, k);
    case At => MentionIff(u, s, i, e);
  }

  lemma SpanIsRejected(u: Unicode, s: string, i: nat, e: nat, k: nat)
    requires Agrees(u) && (NumberSpan(u, s, i, e) || KeyNumberSpan(u, s, i, e)) && i <= k < e
    ensures k < |s| && Rejects(u, Bare, s[k])
  {
    if KeyNumberSpan(u, s, i, e) { KeyNumberChars(u, s, i, e, k); } else { assert Digit(s[k]); }
  }

  /** Of the bare keys that the server finds, the page reads exactly those that are in no wikilink and not
      right after one; and no others. */
  lemma PageReadsBareIff(u: Unicode, s: string, p: nat, token: RefToken)
    requires Agrees(u) && p < |s| && !Sign(s[p]) && token.Requirement?
    ensures PageReads(u, s, p, token) <==> ServerReads(u, Bare, s, p, token) && !TouchesWikilink(s, p)
  {
    hide AltAt, MatchAt, ScanAlone, Scan, BodyOf, Rejects, Fits, TouchesWikilink;
    ServerReadsRequirementsIff(u, Bare, s, p, token);
    if PageReads(u, s, p, token) {
      var alt := PageNeeds(u, s, p, token);
      TokenOfKind(u, alt, s, p);
      if TouchesWikilink(s, p) { NotReadTouching(u, s, p, token); }
    } else if Stands(u, Bare, s, p) && BodyOf(u, Bare, s, p).value.token == token && !TouchesWikilink(s, p) {
      forall m | m in Scan(u, s, 0) && m.start < Before(p) ensures m.end <= Before(p) {
        if m.end > Before(p) { ReachesTheKey(u, s, p, m); assert false; }
      }
      StandsIsRead(u, Bare, s, p);
    }
  }

  lemma NotReadTouching(u: Unicode, s: string, p: nat, token: RefToken)
    requires Agrees(u) && Stands(u, Bare, s, p) && TouchesWikilink(s, p) && token.Requirement?
    ensures !PageReads(u, s, p, token)
  {
    hide AltAt, MatchAt, Scan, BodyOf, Rejects, Matches, Fits;
    FirstChar(u, Bare, s, p);
    var i: nat, g: nat :| i < p && WikiSpan(s, i, g) && p <= g + 2;
    forall m | m in Scan(u, s, 0) && m.prefixEnd == p ensures m.token != token {
      NothingStartsInside(u, s, 0, i, g, m);
      if m.token == token { var alt := AltOfMatch(u, s, m); }
    }
  }

  /** Mentions: the page reads those that stand and that it does not read as a requirement, unless they are
      in a wikilink or follow a reference of the page directly. The server reads those that do not follow a
      mention of its own directly (`ServerReadsIff`), which happens only after a dash. */
  lemma PageReadsMentionIff(u: Unicode, s: string, p: nat, token: RefToken)
    requires Agrees(u) && token.Mention?
    ensures PageReads(u, s, p, token) <==>
              && Stands(u, At, s, p) && BodyOf(u, At, s, p).value.token == token && !Stands(u, Sigil, s, p)
              && !InsideWikilink(s, p) && !EndsInReference(u, s[..p])
  {
    hide AltAt, MatchAt, Scan, BodyOf, Rejects, Fits, InsideWikilink;
    if PageReads(u, s, p, token) {
      var alt := PageNeeds(u, s, p, token);
      TokenOfKind(u, alt, s, p);
      FirstChar(u, alt, s, p);
      if InsideWikilink(s, p) { NotReadInside(u, s, p, token); assert false; }
      if EndsInReference(u, s[..p]) { MentionIsNotTaken(u, s, p, token); assert false; }
    } else if Stands(u, At, s, p) && BodyOf(u, At, s, p).value.token == token && !Stands(u, Sigil, s, p)
              && !InsideWikilink(s, p) && !EndsInReference(u, s[..p]) {
      FirstChar(u, At, s, p);
      EndsOfPrefix(u, s, p, 0);
      forall m | m in Scan(u, s, 0) && m.start < Before(p) ensures m.end <= Before(p) {
        NothingReachesTheSign(u, s, p, m);
      }
      StandsIsRead(u, At, s, p);
    }
  }

  lemma MentionIsNotTaken(u: Unicode, s: string, p: nat, token: RefToken)
    requires Agrees(u) && p < |s| && Sign(s[p]) && !InsideWikilink(s, p) && EndsInReference(u, s[..p]) && token.Mention?
    ensures !PageReads(u, s, p, token)
  {
    hide AltAt, MatchAt, Scan, BodyOf, Rejects, Matches, Fits, InsideWikilink;
    if p == 0 { assert s[..p] == ""; NothingEndsInEmpty(u); assert false; }
    EndsOfPrefix(u, s, p, 0);
    var n :| n in Scan(u, s, 0) && n.end == p;
    forall m | m in Scan(u, s, 0) && m.prefixEnd == p ensures m.token != token {
      ScanIsMatched(u, s, 0, n);
      MatchIsLong(u, s, n.start);
      if m.token == token {
        var alt := AltOfMatch(u, s, m);
        ScanIsDisjoint(u, s, 0, n, m);
        assert false;
      }
    }
  }

  lemma MentionEndsInHandle(u: Unicode, s: string, i: nat)
    requires BodyOf(u, At, s, i).Some?
    ensures var e := BodyOf(u, At, s, i).value.end; 0 < e <= |s| && In(u, HandleChar, s[e - 1])
  {}

  lemma MentionBeforeIsDash(u: Unicode, s: string, p: nat)
    requires Agrees(u) && 0 < p && Stands(u, At, s, p) && ServerEndsAt(u, At, s, p)
    ensures s[p - 1] == '-'
  {
    hide AltAt, ScanAlone, BodyOf, Matches, Fits;
    var m :| m in ScanAlone(u, At, s, 0) && m.end == p;
    AloneIsMatched(u, At, s, 0, m);
    MatchStands(u, At, s, m.start);
    MentionEndsInHandle(u, s, m.prefixEnd);
  }

  /** So where no dash precedes, the page reads exactly those mentions of the server that are no requirement
      as well, in no wikilink, and not right after a reference. */
  lemma PageReadsServerMentionsIff(u: Unicode, s: string, p: nat, token: RefToken)
    requires Agrees(u) && token.Mention? && (p > 0 ==> p <= |s| && s[p - 1] != '-')
    ensures PageReads(u, s, p, token) <==>
              && ServerReads(u, At, s, p, token) && !ServerReads(u, Sigil, s, p, TokenAt(u, Sigil, s, p))
              && !InsideWikilink(s, p) && !EndsInReference(u, s[..if p <= |s| then p else 0])
  {
    hide AltAt, MatchAt, ScanAlone, Scan, BodyOf, Rejects, Fits, InsideWikilink;
    PageReadsMentionIff(u, s, p, token);
    ServerReadsIff(u, At, s, p, token);
    ServerReadsRequirementsIff(u, Sigil, s, p, TokenAt(u, Sigil, s, p));
    if p > 0 && Stands(u, At, s, p) && ServerEndsAt(u, At, s, p) { MentionBeforeIsDash(u, s, p); }
  }

  function TokenAt(u: Unicode, alt: Alt, s: string, p: nat): RefToken {
    if BodyOf(u, alt, s, p).Some? then BodyOf(u, alt, s, p).value.token else Plain("")
  }

  /** A requirement in a wikilink: the server finds it and the page does not. */
  lemma OnlyTheServerReads(u: Unicode)
    requires Agrees(u)
    ensures ServerReads(u, Sigil, "[[#12]]", 2, Requirement("#12", "12"))
        && !PageReads(u, "[[#12]]", 2, Requirement("#12", "12"))
  {
    var s, token := "[[#12]]", Requirement("#12", "12");
    assert WikiSpan(s, 0, 5) && InsideWikilink(s, 2);
    assert NumberSpan(u, s, 3, 5);
    SigilIff(u, s, 2, 5);
    assert s[2..5] == "#12" && s[3..5] == "12";
    ServerReadsRequirementsIff(u, Sigil, s, 2, token);
    PageReadsSigilIff(u, s, 2, token);
  }

  lemma LowerAB()
    ensures TrimHandle("AB-12") == "AB-12" && LowerCase("AB-12") == "ab-12"
  {
    var h := "AB-12";
    assert h[4] == '2' && !Upper('-') && !Upper('1') && !Upper('2');
    assert 'A' - 'A' + 'a' == 'a' && 'B' - 'A' + 'a' == 'b';
  }

  lemma SigilStands(u: Unicode)
    requires Agrees(u)
    ensures SigilBody(u, "@AB-12", 0) == Some(Body(6, Requirement("@AB-12", "AB-12")))
  {
    var s := "@AB-12";
    assert KeySpan(s, 1, 3) && NumberSpan(u, s, 4, 6);
    SigilIff(u, s, 0, 6);
    assert s[0..6] == s && s[1..6] == "AB-12";
  }

  lemma MentionStands(u: Unicode)
    ensures MentionBody(u, "@AB-12", 0) == Some(Body(6, Mention("@AB-12", "ab-12")))
  {
    var s := "@AB-12";
    RunIs(u, HandleChar, s, 2, 6);
    LowerAB();
    hide TrimHandle, LowerCase;
    assert s[1..6] == "AB-12" && "@" + "AB-12" == "@AB-12";
  }

  /** And a requirement with an at sign is a mention as well, but only for the server. */
  lemma AlsoAMention(u: Unicode)
    requires Agrees(u)
    ensures ServerReads(u, At, "@AB-12", 0, Mention("@AB-12", "ab-12"))
    ensures PageReads(u, "@AB-12", 0, Requirement("@AB-12", "AB-12"))
        && !PageReads(u, "@AB-12", 0, Mention("@AB-12", "ab-12"))
  {
    var s, both := "@AB-12", Requirement("@AB-12", "AB-12");
    SigilStands(u);
    MentionStands(u);
    hide SigilBody, MentionBody, ScanAlone, Scan;
    ServerReadsIff(u, At, s, 0, Mention("@AB-12", "ab-12"));
    ServerReadsRequirementsIff(u, Sigil, s, 0, both);
    NothingEndsInEmpty(u);
    assert s[..0] == "" && !InsideWikilink(s, 0);
    PageReadsSigilIff(u, s, 0, both);
    PageReadsMentionIff(u, s, 0, Mention("@AB-12", "ab-12"));
  }

}
