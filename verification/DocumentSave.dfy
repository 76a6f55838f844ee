/** One save of one editor with nothing in between, from any state of the document and of the others: what
    becomes of it on the server and on the page. */
module DocumentSave {
  import opened Wrappers
  import opened Documents
  import opened DocumentEditor
  import opened DocumentWorld

  /** What the server is, and what one editor is, whose latest render is the page. */
  ghost predicate Stands(w: World, id: EditorId, s: Server, e: Editor) {
    && w.server == s && id in w.editors && w.editors[id].editor == e
    && RenderOf(w.editors[id]) in w.editors[id].renders
  }

  lemma InBrowser(w: World, id: EditorId, s: Server, e: Editor, ev: Event)
    requires Stands(w, id, s, e) && Possible(w.editors[id], ev)
    ensures Stands(Next(w, Browser(id, ev)), id, s, Step(e, ev))
  {
    TrackFollows(w.editors[id], ev);
  }

  lemma OnServer(w: World, id: EditorId, s: Server, e: Editor)
    requires Stands(w, id, s, e) && e.flight.Some?
    ensures Stands(Next(w, Admit(id)), id, s, e.(flight := Some(OnAdmit(s, e.flight.value))))
    ensures Stands(Next(w, Commit(id)), id, OnCommit(s, e.flight.value).0,
                   e.(flight := Some(OnCommit(s, e.flight.value).1)))
    ensures Stands(Next(w, Reread(id)), id, s, e.(flight := Some(OnReread(s, e.flight.value))))
  {}

  lemma InLookup(w: World, id: EditorId, s: Server, e: Editor, i: nat)
    requires Stands(w, id, s, e)
    ensures Stands(Next(w, Lookup(id, i)), id, s, OnLookup(s, e, i))
  {}

  /** The save of what the page shows, all the way to its answer. */
  function SaveRun(w: World, id: EditorId, title: string, split: bool): seq<Happening>
    requires id in w.editors
  {
    [Browser(id, Save(title, false, RenderOf(w.editors[id]))), Admit(id), Commit(id), Reread(id),
     Browser(id, Arrive(split))]
  }

  lemma EndOfFive(w: World, a: Happening, b: Happening, c: Happening, d: Happening, e: Happening)
    ensures End(w, [a, b, c, d, e]) == Next(Next(Next(Next(Next(w, a), b), c), d), e)
  {
    hide Next;
    var run := [a, b, c, d, e];
    assert run[1..] == [b, c, d, e] && run[1..][1..] == [c, d, e] && run[1..][1..][1..] == [d, e];
    var w1 := Next(w, a);
    var w2 := Next(w1, b);
    var w3 := Next(w2, c);
    var w4 := Next(w3, d);
    assert End(w, run) == End(w1, run[1..]) == End(w2, run[1..][1..]) == End(w3, [d, e]);
    assert [d, e][1..] == [e] && End(w3, [d, e]) == End(w4, [e]);
    assert [e][1..] == [] && End(w4, [e]) == Next(w4, e);
  }

  /** Up to the answer, by way of `f2`, `s` and `f4`: how far the update is, and the document after it. */
  lemma SaveGoesBy(w: World, id: EditorId, title: string, split: bool, e: Editor, f2: Flight, s3: Server, f3: Flight,
                   f4: Flight)
    requires Stands(w, id, w.server, e) && !e.saving
    requires f2 == OnAdmit(w.server, Flight(Update(Some(title), Some(e.content), Some(e.base)), Sent))
    requires (s3, f3) == OnCommit(w.server, f2) && f4 == OnReread(s3, f3)
    ensures var asked := e.(saving := true, state := Saving, flight := Some(f4));
            Stands(End(w, SaveRun(w, id, title, split)), id, s3, OnArrival(asked, split))
  {
    var r := RenderOf(w.editors[id]);
    EndOfFive(w, Browser(id, Save(title, false, r)), Admit(id), Commit(id), Reread(id), Browser(id, Arrive(split)));
    var w1 := Next(w, Browser(id, Save(title, false, r)));
    InBrowser(w, id, w.server, e, Save(title, false, r));
    var e1 := Step(e, Save(title, false, r));
    assert e1 == e.(saving := true, state := Saving,
                    flight := Some(Flight(Update(Some(title), Some(e.content), Some(e.base)), Sent)));
    hide OnAdmit, OnCommit, OnReread, Next, Step, OnArrival, End;
    OnServer(w1, id, w.server, e1);
    OnServer(Next(w1, Admit(id)), id, w.server, e1.(flight := Some(f2)));
    OnServer(Next(Next(w1, Admit(id)), Commit(id)), id, s3, e1.(flight := Some(f3)));
    var w4 := Next(Next(Next(w1, Admit(id)), Commit(id)), Reread(id));
    InBrowser(w4, id, s3, e1.(flight := Some(f4)), Arrive(split));
    ArrivalIsStep(e1.(flight := Some(f4)), split);
  }

  lemma ArrivalIsStep(e: Editor, split: bool)
    ensures Step(e, Arrive(split)) == OnArrival(e, split)
  {}

  /** A save against the current version becomes the next one, with this text, and the page says saved. */
  ghost predicate BecomesNext(s: Server, e: Editor, title: string, later: Server, next: Editor) {
    && Keeps(s, later) && later.doc.version == s.doc.version + 1
    && later.doc.body == e.content && Unpadded(title, later.doc.title)
    && next.state == Saved && !next.saving && next.flight == None
    && next.base == next.cached.version == later.doc.version && next.content == e.content
  }

  /** It changes nothing on the server, and the page keeps its text. */
  ghost predicate ComesBack(s: Server, e: Editor, later: Server, next: Editor) {
    && later == s && !next.saving && next.flight == None
    && next.content == e.content && next.title == e.title && next.base == e.base
  }

  lemma SaveLands(w: World, id: EditorId, title: string, split: bool, e: Editor)
    requires SoundWorld(w) && Stands(w, id, w.server, e) && !e.saving
    requires !w.server.archived && e.base == w.server.doc.version
    ensures var end := End(w, SaveRun(w, id, title, split));
            id in end.editors && BecomesNext(w.server, e, title, end.server, end.editors[id].editor)
  {
    var s := w.server;
    assert SoundHere(s, w.editors[id]);
    var update := Update(Some(title), Some(e.content), Some(e.base));
    UpdatesKeepEveryVersion(s, update);
    WriteAtOnce(s, update);
    var f := Flight(update, Sent);
    var f2, later := f.(stage := Admitted(s.doc)), Write(s, s.doc, update);
    var f3, f4 := f.(stage := Committed(later.doc.version)), f.(stage := Accepted(later.doc.version, later.doc));
    SaveGoesBy(w, id, title, split, e, f2, later, f3, f4);
  }

  /** The read that follows a rejection is the document by then, and the page shows it. */
  lemma ConflictIsShown(w: World, id: EditorId, s: Server, e: Editor, i: nat)
    requires Stands(w, id, s, e) && i < |e.lookups| && e.lookups[i] == None
    ensures var told := Next(Next(w, Lookup(id, i)), Browser(id, LookupArrives(i)));
            Stands(told, id, s, e.(dialog := Some(s.doc), state := Conflict, lookups := Without(e.lookups, i)))
  {
    InLookup(w, id, s, e, i);
    var read := OnLookup(s, e, i);
    InBrowser(Next(w, Lookup(id, i)), id, s, read, LookupArrives(i));
    assert Without(read.lookups, i) == Without(e.lookups, i);
  }

  /** Against any other version it is rejected, and the page then shows the conflict with the current one. */
  lemma SaveConflicts(w: World, id: EditorId, title: string, split: bool, e: Editor)
    requires Stands(w, id, w.server, e) && !e.saving && !w.server.archived && e.base != w.server.doc.version
    ensures var end := End(w, SaveRun(w, id, title, split));
            && id in end.editors && ComesBack(w.server, e, end.server, end.editors[id].editor)
            && var told := Next(Next(end, Lookup(id, |e.lookups|)), Browser(id, LookupArrives(|e.lookups|)));
               && id in told.editors && ComesBack(w.server, e, told.server, told.editors[id].editor)
               && told.editors[id].editor.state == Conflict
               && told.editors[id].editor.dialog == Some(w.server.doc)
  {
    var f := Flight(Update(Some(title), Some(e.content), Some(e.base)), Rejected);
    SaveGoesBy(w, id, title, split, e, f, w.server, f, f);
    var end := End(w, SaveRun(w, id, title, split));
    assert end.editors[id].editor.lookups == e.lookups + [None];
    hide Next, End, SaveRun;
    ConflictIsShown(end, id, w.server, end.editors[id].editor, |e.lookups|);
  }

  /** An archived document takes no save: the page says so, and has its text. */
  lemma SaveIsRefused(w: World, id: EditorId, title: string, split: bool, e: Editor)
    requires Stands(w, id, w.server, e) && !e.saving && w.server.archived
    ensures var end := End(w, SaveRun(w, id, title, split));
            && id in end.editors && ComesBack(w.server, e, end.server, end.editors[id].editor)
            && end.editors[id].editor.state == Failed
  {
    var f := Flight(Update(Some(title), Some(e.content), Some(e.base)), Refused);
    SaveGoesBy(w, id, title, split, e, f, w.server, f, f);
  }
}
