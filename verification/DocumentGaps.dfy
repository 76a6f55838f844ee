/** Runs of one editor on a new document in which it comes to say or to do what it should not. */
module DocumentGaps {
  import opened Wrappers
  import opened Documents
  import opened DocumentEditor
  import opened DocumentWorld
  import DocumentSave

  /** The state after one more event of a run. */
  lemma {:induction false} Unroll(w: World, run: seq<Happening>, h: Happening)
    ensures End(w, run + [h]) == Next(End(w, run), h)
    decreases |run|
  {
    if run == [] {
      assert (run + [h])[1..] == [];
    } else {
      assert (run + [h])[1..] == run[1..] + [h];
      Unroll(Next(w, run[0]), run[1..], h);
    }
  }

  /** A new document, the state of its one editor after a run, and nothing else under way. */
  ghost predicate Reaches(run: seq<Happening>, s: Server, e: Editor) {
    var w := End(Fresh("t", ""), run);
    DocumentSave.Stands(w, 1, s, e) && w.others == []
  }

  function TrackedAfter(run: seq<Happening>): Tracked
    requires 1 in End(Fresh("t", ""), run).editors
  {
    End(Fresh("t", ""), run).editors[1]
  }

  lemma Opens() returns (run: seq<Happening>)
    ensures Reaches(run, Created("t", ""), Opened(Doc(1, "t", "")))
  {
    run := [Open(1)];
    assert [] + [Open(1)] == run;
    Unroll(Fresh("t", ""), [], Open(1));
    assert BTrim("t") == "t";
  }

  lemma InBrowser(run: seq<Happening>, s: Server, e: Editor, ev: Event)
    requires Reaches(run, s, e) && Possible(TrackedAfter(run), ev)
    ensures Reaches(run + [Browser(1, ev)], s, Step(e, ev))
    ensures TrackedAfter(run).renders <= TrackedAfter(run + [Browser(1, ev)]).renders
  {
    Unroll(Fresh("t", ""), run, Browser(1, ev));
    TrackFollows(TrackedAfter(run), ev);
    TrackKeepsRenders(TrackedAfter(run), ev);
  }

  /** A save by the handler of the latest render. */
  lemma Saves(run: seq<Happening>, s: Server, e: Editor) returns (h: Happening, from: Render)
    requires Reaches(run, s, e)
    ensures from == RenderOf(TrackedAfter(run)) && from.text == e.content && from.base == e.base
    ensures h == Browser(1, Save("t", false, from)) && Reaches(run + [h], s, Step(e, h.ev))
  {
    from := RenderOf(TrackedAfter(run));
    h := Browser(1, Save("t", false, from));
    InBrowser(run, s, e, h.ev);
  }

  lemma OnServer(run: seq<Happening>, s: Server, e: Editor)
    requires Reaches(run, s, e) && e.flight.Some?
    ensures Reaches(run + [Admit(1)], s, e.(flight := Some(OnAdmit(s, e.flight.value))))
    ensures Reaches(run + [Commit(1)], OnCommit(s, e.flight.value).0, e.(flight := Some(OnCommit(s, e.flight.value).1)))
    ensures Reaches(run + [Reread(1)], s, e.(flight := Some(OnReread(s, e.flight.value))))
  {
    Unroll(Fresh("t", ""), run, Admit(1));
    Unroll(Fresh("t", ""), run, Commit(1));
    Unroll(Fresh("t", ""), run, Reread(1));
  }

  lemma InLookup(run: seq<Happening>, s: Server, e: Editor, i: nat)
    requires Reaches(run, s, e)
    ensures Reaches(run + [Lookup(1, i)], s, OnLookup(s, e, i))
  {
    Unroll(Fresh("t", ""), run, Lookup(1, i));
  }

  const THEIRS := Update(None, Some("theirs"), None)

  /** Somebody else saves, without anybody in between. */
  lemma ByOthers(run: seq<Happening>, s: Server, e: Editor) returns (run': seq<Happening>)
    requires Reaches(run, s, e) && !s.archived
    ensures Reaches(run', Write(s, s.doc, THEIRS), e)
  {
    Unroll(Fresh("t", ""), run, Start(THEIRS));
    Unroll(Fresh("t", ""), run + [Start(THEIRS)], Finish(0));
    run' := run + [Start(THEIRS)] + [Finish(0)];
  }

  /** Somebody types and saves, the server commits, and before it reads its answer somebody else saves. */
  lemma Interrupted() returns (run: seq<Happening>, s: Server, e: Editor)
    ensures Reaches(run, s, e)
    ensures s.doc == Doc(3, "t", "theirs") && !s.archived
    ensures e.state == Saving && e.cached.version == 1 && e.flight.Some? && e.flight.value.stage == Accepted(2, s.doc)
  {
    run := Opens();
    s, e := Created("t", ""), Opened(Doc(1, "t", ""));
    InBrowser(run, s, e, Type("mine"));
    run, e := run + [Browser(1, Type("mine"))], Step(e, Type("mine"));
    var h, from := Saves(run, s, e);
    run, e := run + [h], Step(e, h.ev);
    OnServer(run, s, e);
    run, e := run + [Admit(1)], e.(flight := Some(OnAdmit(s, e.flight.value)));
    OnServer(run, s, e);
    assert BTrim("t") == "t";
    run, s, e := run + [Commit(1)], OnCommit(s, e.flight.value).0, e.(flight := Some(OnCommit(s, e.flight.value).1));
    run := ByOthers(run, s, e);
    s := Write(s, s.doc, THEIRS);
    OnServer(run, s, e);
    run, e := run + [Reread(1)], e.(flight := Some(OnReread(s, e.flight.value)));
  }

  /** An editor is overtaken if its user types on meanwhile. */
  lemma OvertakenIsReachable()
    ensures exists run, h ::
              var w := End(Fresh("t", ""), run);
              Overtaken(w, h) && !w.server.archived
                  && w.editors[h.id].editor.flight.value.stage.doc.version == w.server.doc.version
  {
    var run, s, e := Interrupted();
    InBrowser(run, s, e, Type("mine and more"));
    assert Overtaken(End(Fresh("t", ""), run + [Browser(1, Type("mine and more"))]), Browser(1, Arrive(false)));
  }

  /** And misled if the page renders in the middle of the answer. */
  lemma MisledByAnAnswer()
    ensures exists run :: Misled(End(Fresh("t", ""), run), Browser(1, Arrive(true)))
  {
    var run, s, e := Interrupted();
    assert Misled(End(Fresh("t", ""), run), Browser(1, Arrive(true)));
  }

  /** Misled by an insertion that finds no view. */
  lemma MisledByAnInsertion(text: string)
    requires text != ""
    ensures exists run :: Misled(End(Fresh("t", ""), run), Browser(1, InsertBlind(text)))
  {
    var run := Opens();
    assert Misled(End(Fresh("t", ""), run), Browser(1, InsertBlind(text)));
  }

  /** Misled by a timer that fires for the text before the last keystroke. */
  lemma MisledByAnEarlierRender()
    ensures exists run, from :: Misled(End(Fresh("t", ""), run), Browser(1, Save("t", false, from)))
  {
    var run := Opens();
    var s, e := Created("t", ""), Opened(Doc(1, "t", ""));
    var from := RenderOf(TrackedAfter(run));
    InBrowser(run, s, e, Type("mine"));
    run := run + [Browser(1, Type("mine"))];
    assert from in TrackedAfter(run).renders;
    assert Misled(End(Fresh("t", ""), run), Browser(1, Save("t", false, from)));
  }

  /** A save is refused because somebody else has saved, and its conflict is to be looked up. */
  lemma Refusal(run: seq<Happening>, s: Server, e: Editor) returns (run': seq<Happening>, e': Editor)
    requires Reaches(run, s, e)
    requires !s.archived && s.doc.version != e.base && !e.saving
    ensures Reaches(run', s, e')
    ensures e' == e.(state := Saving, saving := false, flight := None, lookups := e.lookups + [None])
  {
    var h, from := Saves(run, s, e);
    run', e' := run + [h], Step(e, h.ev);
    OnServer(run', s, e');
    run', e' := run' + [Admit(1)], e'.(flight := Some(OnAdmit(s, e'.flight.value)));
    InBrowser(run', s, e', Arrive(false));
    run', e' := run' + [Browser(1, Arrive(false))], Step(e', Arrive(false));
  }

  /** Two refused saves look their conflict up twice; the user takes the version of the server when the
      first answer is there, and the second one opens the dialog again. */
  lemma DialogAgain() returns (run: seq<Happening>, s: Server, e: Editor)
    ensures Reaches(run, s, e)
    ensures s.doc == Doc(2, "t", "theirs") && !s.archived
    ensures e.base == 2 && e.dialog == Some(s.doc) && e.cached == s.doc && !e.saving && e.flight == None
  {
    run := Opens();
    s, e := Created("t", ""), Opened(Doc(1, "t", ""));
    assert BTrim("t") == "t";
    run := ByOthers(run, s, e);
    s := Write(s, s.doc, THEIRS);
    run, e := Refusal(run, s, e);
    run, e := Refusal(run, s, e);
    assert e.lookups == [None, None];
    run, e := BothLookedUp(run, s, e);
    InBrowser(run, s, e, LookupArrives(0));
    run, e := run + [Browser(1, LookupArrives(0))], Step(e, LookupArrives(0));
    assert e.lookups == [Some(s.doc)];
    InBrowser(run, s, e, UseServer);
    run, e := run + [Browser(1, UseServer)], Step(e, UseServer);
    InBrowser(run, s, e, LookupArrives(0));
    run, e := run + [Browser(1, LookupArrives(0))], Step(e, LookupArrives(0));
  }

  lemma BothLookedUp(run: seq<Happening>, s: Server, e: Editor) returns (run': seq<Happening>, e': Editor)
    requires Reaches(run, s, e) && e.lookups == [None, None]
    ensures Reaches(run', s, e') && e' == e.(lookups := [Some(s.doc), Some(s.doc)])
  {
    InLookup(run, s, e, 0);
    run', e' := run + [Lookup(1, 0)], OnLookup(s, e, 0);
    InLookup(run', s, e', 1);
    run', e' := run' + [Lookup(1, 1)], OnLookup(s, e', 1);
    assert e'.lookups == [Some(s.doc), Some(s.doc)];
  }

  /** A save that goes through. */
  lemma Lands(run: seq<Happening>, s: Server, e: Editor) returns (run': seq<Happening>, s': Server, e': Editor)
    requires Reaches(run, s, e) && !s.archived && s.doc.version == e.base && !e.saving
    ensures Reaches(run', s', e') && e'.state == Saved && e'.base == e.base + 1 && e'.dialog == e.dialog && !e'.saving
  {
    hide Reaches;
    var h, from := Saves(run, s, e);
    run', s', e' := run + [h], s, Step(e, h.ev);
    OnServer(run', s', e');
    run', e' := run' + [Admit(1)], e'.(flight := Some(OnAdmit(s, e'.flight.value)));
    OnServer(run', s', e');
    var (later, flight) := OnCommit(s, e'.flight.value);
    run', s', e' := run' + [Commit(1)], later, e'.(flight := Some(flight));
    OnServer(run', s', e');
    run', e' := run' + [Reread(1)], e'.(flight := Some(OnReread(s', e'.flight.value)));
    InBrowser(run', s', e', Arrive(false));
    run', e' := run' + [Browser(1, Arrive(false))], Step(e', Arrive(false));
  }

  /** Misled by the dialog: with it open the document is saved, and then the user, who may no longer write,
      chooses to overwrite the older version that it shows. */
  lemma MisledByTheDialog()
    ensures exists run, from :: Misled(End(Fresh("t", ""), run), Browser(1, Overwrite("t", true, from)))
  {
    var run, s, e := DialogAgain();
    run, s, e := Lands(run, s, e);
    var from := RenderOf(TrackedAfter(run));
    assert Misled(End(Fresh("t", ""), run), Browser(1, Overwrite("t", true, from)));
  }

  /** Two updates are under way at once, and the write of the second races. */
  lemma RaceIsReachable()
    ensures exists run :: Races(End(Fresh("t", ""), run), Finish(0))
  {
    var w1 := Next(Fresh("t", ""), Start(THEIRS));
    var w2 := Next(w1, Start(THEIRS));
    Unroll(Fresh("t", ""), [], Start(THEIRS));
    Unroll(Fresh("t", ""), [] + [Start(THEIRS)], Start(THEIRS));
    Unroll(Fresh("t", ""), [] + [Start(THEIRS)] + [Start(THEIRS)], Finish(0));
    assert Races(End(Fresh("t", ""), [] + [Start(THEIRS)] + [Start(THEIRS)] + [Finish(0)]), Finish(0));
  }

}
