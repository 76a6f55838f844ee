/** Completions that are not read back: one text for each way in which that happens. */
module CompletionGaps {
  import opened Wrappers
  import opened Refs
  import opened Completion
  import opened Brackets

  /** What a user can do: an item that is offered for the trigger at the caret. */
  ghost predicate Offered(u: Unicode, value: string, caret: nat, t: ActiveTrigger, item: Item) {
    && Agrees(u) && Stored(u, item) && caret <= |value| && DetectTrigger(u, value, caret) == Some(t)
    && item.kind in SuggestTypesFor(t)
  }

  /** The reference that was chosen is not where it was put. */
  ghost predicate Lost(u: Unicode, value: string, t: ActiveTrigger, item: Item) {
    t.start <= t.end <= |value| && (ReadsAs(item), t.start) !in Positions(Tokens(u, Accept(value, t, item)), 0)
  }

  /** A title with a bracket in it. */
  lemma TitleIsLost(u: Unicode)
    requires Agrees(u)
    ensures exists value, caret, t, item :: Offered(u, value, caret, t, item) && Lost(u, value, t, item)
  {
    var value, caret, item := "[[", 2, Item(DocumentItem, "", "a]b");
    assert value[..2] == value;
    assert StaysOpen(value, 2) && Doubled(value, 0, '[');
    assert OpenWiki(value, 0) == Some(0);
    var t := DetectTrigger(u, value, caret).value;
    assert item.title[1] == ']' && !Printable(item);
    CompletionRoundTrip(u, value, caret, t, item);
    assert Offered(u, value, caret, t, item) && Lost(u, value, t, item);
  }

  /** A requirement chosen after brackets that follow a word. */
  lemma AfterAWordIsLost(u: Unicode)
    requires Agrees(u)
    ensures exists value, caret, t, item :: Offered(u, value, caret, t, item) && Lost(u, value, t, item)
                                            && item.kind == RequirementItem && value[..t.start] == "a"
  {
    var value, caret, item := "a[[", 3, Item(RequirementItem, "AB-1", "");
    assert value[..3] == value;
    assert StaysOpen(value, 3) && Doubled(value, 1, '[') && !Doubled(value, 0, '[');
    assert OpenWiki(value, 1) == Some(1);
    assert OpenWiki(value, 0) == Some(1);
    var t := DetectTrigger(u, value, caret).value;
    KeyIsStored(u);
    assert value[..1] == "a" && Rejects(u, Sigil, 'a');
    BracketsRoundTripIff(u, value, caret, t, item);
    assert Offered(u, value, caret, t, item) && Lost(u, value, t, item);
  }

  lemma KeyIsStored(u: Unicode)
    requires Agrees(u)
    ensures IsRefKey(u, "AB-1")
  {
    var key := "AB-1";
    assert KeySpan(key, 0, 2) && NumberSpan(u, key, 3, 4);
  }

  /** A long wikilink, open sixty-three characters before the caret and closed after it. */
  function LongLink(): string {
    "[[" + seq(61, _ => 'a') + " #" + "]]"
  }

  lemma LongLinkIsLong()
    ensures var value := LongLink();
            && |value| == 67 && value[0] == value[1] == '['
            && value[63] == ' ' && value[64] == '#' && value[65] == value[66] == ']'
            && forall k :: 2 <= k < 63 ==> value[k] == 'a'
  {}

  lemma {:induction false} NotOpened(s: string, i: nat)
    requires i > 0 ==> forall k :: i <= k < |s| ==> !Doubled(s, k, '[')
    requires i == 0 ==> |s| > 62 && forall k :: 1 <= k < |s| ==> !Doubled(s, k, '[')
    ensures OpenWiki(s, i) == None
    decreases |s| - i
  {
    if i + 2 <= |s| { NotOpened(s, i + 1); }
  }

  /** A requirement chosen inside a wikilink. */
  lemma InsideALinkIsLost(u: Unicode)
    requires Agrees(u)
    ensures exists value, caret, t, item :: Offered(u, value, caret, t, item) && Lost(u, value, t, item)
                                            && InsideWikilink(Accept(value, t, item), t.start)
  {
    var value, caret, item := LongLink(), 65, Item(RequirementItem, "AB-1", "");
    LongLinkIsLong();
    KeyIsStored(u);
    var before := value[..caret];
    NotOpened(before, 0);
    assert !In(u, QueryChar, '#') && Opening(' ');
    assert QueryStart(u, before, caret) == caret;
    var t := DetectTrigger(u, value, caret).value;
    assert t.start == 64 && t.end == 65 && t.kind == HashSign;
    var s := Accept(value, t, item);
    LinkStaysAround(value, s, t, item);
    CompletionRoundTrip(u, value, caret, t, item);
    assert Offered(u, value, caret, t, item) && Lost(u, value, t, item);
  }

  lemma LinkStaysAround(value: string, s: string, t: ActiveTrigger, item: Item)
    requires value == LongLink() && t.start == 64 && t.end == 65 && item == Item(RequirementItem, "AB-1", "")
    requires t.end <= |value| && s == Accept(value, t, item)
    ensures InsideWikilink(s, 64)
  {
    LongLinkIsLong();
    assert s == value[..64] + "#AB-1 " + value[65..];
    assert WikiSpan(s, 0, 70);
  }

}
