/** Any number of editors on one document, and everybody else who writes to it. */
module DocumentWorld {
  import opened Wrappers
  import opened Documents
  import opened DocumentEditor

  type EditorId = int

  /** An update of somebody else that the server has admitted and not written yet. */
  datatype Pending = Pending(read: Doc, update: Update)

  datatype World = World(server: Server, editors: map<EditorId, Tracked>, others: seq<Pending>)

  /** A step of the browser or of the server. `Fetch` brings an editor a version of the document, however
      old. `Admit`, `Commit`, `Reread` and `Lookup` are the server's work on what an editor sent: the read
      and the write of an update are two steps. So are those of any other client, `Start` and `Finish`, the
      restoring of a version among them. */
  datatype Happening =
    | Open(id: EditorId)
    | Browser(id: EditorId, ev: Event)
    | Fetch(id: EditorId, version: Version)
    | Admit(id: EditorId)
    | Commit(id: EditorId)
    | Reread(id: EditorId)
    | Lookup(id: EditorId, i: nat)
    | Start(update: Update)
    | Finish(k: nat)
    | Archive(archived: bool)

  function OnAdmit(s: Server, f: Flight): Flight {
    if !f.stage.Sent? then f
    else
      match Decide(s, f.update)
      case Updated => f.(stage := Admitted(s.doc))
      case Stale => f.(stage := Rejected)
      case NotFound => f.(stage := Refused)
  }

  function OnCommit(s: Server, f: Flight): (Server, Flight) {
    if !f.stage.Admitted? then (s, f)
    else
      var later := Write(s, f.stage.read, f.update);
      (later, f.(stage := Committed(later.doc.version)))
  }

  function OnReread(s: Server, f: Flight): Flight {
    if f.stage.Committed? then f.(stage := Accepted(f.stage.written, s.doc)) else f
  }

  function OnLookup(s: Server, e: Editor, i: nat): Editor {
    if i < |e.lookups| && e.lookups[i] == None then e.(lookups := e.lookups[i := Some(s.doc)]) else e
  }

  function Next(w: World, h: Happening): World {
    match h
    case Open(id) => if id in w.editors then w else w.(editors := w.editors[id := Tracking(w.server.doc)])
    case Start(u) => if Decide(w.server, u).Updated? then w.(others := w.others + [Pending(w.server.doc, u)]) else w
    case Finish(k) =>
      if k < |w.others| then
        w.(server := Write(w.server, w.others[k].read, w.others[k].update), others := Without(w.others, k))
      else w
    case Archive(archived) => w.(server := w.server.(archived := archived))
    case _ => if h.id in w.editors then Works(w, h, w.editors[h.id]) else w
  }

  predicate OfOne(h: Happening) {
    h.Browser? || h.Fetch? || h.Admit? || h.Commit? || h.Reread? || h.Lookup?
  }

  function Works(w: World, h: Happening, t: Tracked): World
    requires OfOne(h)
  {
    w.(server := Served(w.server, h, t), editors := w.editors[h.id := Rendered(Worked(w.server, h, t))])
  }

  function Served(s: Server, h: Happening, t: Tracked): Server {
    if h.Commit? && t.editor.flight.Some? then OnCommit(s, t.editor.flight.value).0 else s
  }

  /** A fetch brings what the server has; a save is by the handler of some render. */
  predicate Possible(t: Tracked, ev: Event) {
    !ev.Fetched? && (ev.Save? || ev.Overwrite? ==> ev.from in t.renders)
  }

  function InFlight(t: Tracked, f: Flight): Tracked { t.(editor := t.editor.(flight := Some(f))) }

  function Worked(s: Server, h: Happening, t: Tracked): Tracked
    requires OfOne(h)
  {
    var e := t.editor;
    match h
    case Browser(_, ev) => if Possible(t, ev) then Track(t, ev) else t
    case Fetch(_, v) => if Reading(s, v).Some? then Track(t, Fetched(Reading(s, v).value)) else t
    case Admit(_) => if e.flight.Some? then InFlight(t, OnAdmit(s, e.flight.value)) else t
    case Commit(_) => if e.flight.Some? then InFlight(t, OnCommit(s, e.flight.value).1) else t
    case Reread(_) => if e.flight.Some? then InFlight(t, OnReread(s, e.flight.value)) else t
    case Lookup(_, i) => t.(editor := OnLookup(s, e, i))
  }

  /** The step is a write, and somebody else has written since its read. */
  predicate Races(w: World, h: Happening) {
    || (h.Finish? && h.k < |w.others| && w.others[h.k].read.version != w.server.doc.version)
    || (h.Commit? && h.id in w.editors && w.editors[h.id].editor.flight.Some?
        && w.editors[h.id].editor.flight.value.stage.Admitted?
        && w.editors[h.id].editor.flight.value.stage.read.version != w.server.doc.version)
  }

  // ---------------------------------------------------------------------- soundness

  /** What an editor has of the document is true of it, and nothing in it is ahead of the document. */
  ghost predicate SoundHere(s: Server, t: Tracked)
    requires Complete(s)
  {
    Sound(s, t) && RendersKnown(s.doc.version, t) && SentKnown(s.doc.version, t)
  }

  ghost predicate SoundOthers(s: Server, others: seq<Pending>)
    requires Complete(s)
  {
    forall p <- others :: IsVersion(s, p.read)
  }

  ghost predicate SoundWorld(w: World) {
    && Complete(w.server) && SoundOthers(w.server, w.others)
    && forall id <- w.editors :: SoundHere(w.server, w.editors[id])
  }

  lemma LaterIsSound(s: Server, later: Server, t: Tracked)
    requires Keeps(s, later) && SoundHere(s, t)
    ensures SoundHere(later, t)
  {
    var e := t.editor;
    assert forall v :: 1 <= v <= s.doc.version ==> At(later, v) == At(s, v);
    forall i | 0 <= i < |e.lookups| && e.lookups[i].Some? ensures IsVersion(later, e.lookups[i].value) {
      KeepsIsVersion(s, later, e.lookups[i].value);
    }
  }

  lemma RenderedIsSound(s: Server, t: Tracked)
    requires Complete(s) && SoundHere(s, t)
    ensures SoundHere(s, Rendered(t))
  {}

  lemma EventIsSound(s: Server, t: Tracked, ev: Event)
    requires Complete(s) && SoundHere(s, t) && Genuine(s, ev) && (ev.Save? || ev.Overwrite? ==> ev.from in t.renders)
    ensures SoundHere(s, Track(t, ev))
  {
    hide Track, Sound, SentKnown;
    StepIsSound(s, t, ev);
    StepIsKnown(s, t, ev);
    StepSendsKnown(s, t, ev);
  }

  lemma OnServerIsSound(s: Server, h: Happening, t: Tracked)
    requires Complete(s) && SoundHere(s, t) && (h.Admit? || h.Reread? || h.Lookup?)
    ensures SoundHere(s, Worked(s, h, t))
  {}

  lemma WorkIsSound(s: Server, h: Happening, t: Tracked)
    requires Complete(s) && SoundHere(s, t) && OfOne(h) && !h.Commit?
    ensures SoundHere(s, Worked(s, h, t))
  {
    hide Track, SoundHere;
    match h
    case Browser(_, ev) => if Possible(t, ev) { EventIsSound(s, t, ev); }
    case Fetch(_, v) => if Reading(s, v).Some? { EventIsSound(s, t, Fetched(Reading(s, v).value)); }
    case _ => OnServerIsSound(s, h, t);
  }

  /** This editor's save is about to be written, and somebody else has written since it was admitted. */
  predicate RacesHere(s: Server, h: Happening, t: Tracked) {
    && h.Commit? && t.editor.flight.Some? && t.editor.flight.value.stage.Admitted?
    && t.editor.flight.value.stage.read.version != s.doc.version
  }

  lemma CommitIsSound(s: Server, h: Happening, t: Tracked)
    requires Complete(s) && SoundHere(s, t) && h.Commit? && !RacesHere(s, h, t)
    ensures Keeps(s, Served(s, h, t)) && SoundHere(Served(s, h, t), Worked(s, h, t))
  {
    if t.editor.flight.Some? && t.editor.flight.value.stage.Admitted? {
      RaceLosesIff(s, t.editor.flight.value.stage.read, t.editor.flight.value.update);
      LaterIsSound(s, Served(s, h, t), t);
    }
  }

  lemma WorksIsSound(s: Server, h: Happening, t: Tracked)
    requires Complete(s) && SoundHere(s, t) && OfOne(h) && !RacesHere(s, h, t)
    ensures Keeps(s, Served(s, h, t)) && SoundHere(Served(s, h, t), Rendered(Worked(s, h, t)))
  {
    hide SoundHere, Rendered, Worked;
    if h.Commit? { CommitIsSound(s, h, t); } else { WorkIsSound(s, h, t); }
    RenderedIsSound(Served(s, h, t), Worked(s, h, t));
  }

  lemma OthersStaySound(s: Server, later: Server, others: seq<Pending>)
    requires Keeps(s, later) && SoundOthers(s, others)
    ensures SoundOthers(later, others)
  {
    forall p <- others ensures IsVersion(later, p.read) { KeepsIsVersion(s, later, p.read); }
  }

  lemma OthersAreSound(w: World, h: Happening)
    requires SoundWorld(w) && !Races(w, h) && (h.Start? || h.Finish?)
    ensures Keeps(w.server, Next(w, h).server) && SoundOthers(Next(w, h).server, Next(w, h).others)
  {
    if h.Finish? && h.k < |w.others| {
      var p := w.others[h.k];
      RaceLosesIff(w.server, p.read, p.update);
      OthersStaySound(w.server, Next(w, h).server, w.others);
    }
  }

  lemma OpenedIsSound(s: Server)
    requires Complete(s)
    ensures SoundHere(s, Tracking(s.doc))
  {}

  /** While no write races, every version of the document stays readable, and every editor knows only
      versions of it. */
  lemma NextIsSound(w: World, h: Happening)
    requires SoundWorld(w) && !Races(w, h)
    ensures Keeps(w.server, Next(w, h).server) && SoundWorld(Next(w, h))
  {
    hide SoundHere, SoundOthers, Rendered, Worked;
    var next := Next(w, h);
    if h.Start? || h.Finish? {
      OthersAreSound(w, h);
    } else if OfOne(h) && h.id in w.editors {
      WorksIsSound(w.server, h, w.editors[h.id]);
      OthersStaySound(w.server, next.server, w.others);
    } else {
      OpenedIsSound(w.server);
      OthersStaySound(w.server, next.server, w.others);
    }
    forall id <- next.editors ensures SoundHere(next.server, next.editors[id]) {
      if id in w.editors && (!OfOne(h) || id != h.id) { LaterIsSound(w.server, next.server, w.editors[id]); }
    }
  }

  /** And exactly a write that races loses a version. */
  lemma NextKeepsIff(w: World, h: Happening)
    requires SoundWorld(w)
    ensures Keeps(w.server, Next(w, h).server) <==> !Races(w, h)
  {
    if !Races(w, h) {
      NextIsSound(w, h);
    } else if h.Finish? {
      RaceLosesIff(w.server, w.others[h.k].read, w.others[h.k].update);
    } else {
      var f := w.editors[h.id].editor.flight.value;
      assert SoundHere(w.server, w.editors[h.id]);
      RaceLosesIff(w.server, f.stage.read, f.update);
    }
  }

  // --------------------------------------------------------------------------- steps

  /** An editor is told of a version that somebody else wrote after its own. */
  ghost predicate Overtaken(w: World, h: Happening) {
    h.Browser? && h.id in w.editors && Interloped(w.editors[h.id].editor, h.ev)
  }

  /** An editor comes to say that all is saved when it is not, or is about to. */
  ghost predicate Misled(w: World, h: Happening) {
    h.Browser? && h.id in w.editors && Possible(w.editors[h.id], h.ev) && Strays(w.editors[h.id].editor, h.ev)
  }

  ghost predicate BasedHere(t: Tracked) { Based(t) && SentBased(t) && RendersBased(t) }

  ghost predicate AllBased(w: World) {
    forall id <- w.editors :: BasedHere(w.editors[id])
  }

  ghost predicate AllSettled(w: World) {
    forall id <- w.editors :: Settled(w.editors[id])
  }

  lemma TrackKeepsRenders(t: Tracked, ev: Event)
    ensures Track(t, ev).renders == t.renders
  {}

  lemma EventIsBasedIff(t: Tracked, ev: Event)
    requires BasedHere(t) && t.editor.saving == t.editor.flight.Some? && (ev.Save? ==> ev.from in t.renders)
    ensures BasedHere(Rendered(Track(t, ev))) <==> !Interloped(t.editor, ev)
  {
    StepIsBasedIff(t, ev);
    StepSendsBased(t, ev);
    TrackKeepsRenders(t, ev);
    hide Track, Interloped;
    assert RenderOf(Track(t, ev)) in Rendered(Track(t, ev)).renders;
    assert Based(Track(t, ev)) <==> RenderBased(RenderOf(Track(t, ev)));
  }

  lemma OnServerIsBased(s: Server, h: Happening, t: Tracked)
    requires BasedHere(t) && OfOne(h) && !h.Browser? && !h.Fetch?
    ensures BasedHere(Rendered(Worked(s, h, t)))
  {}

  lemma WorkIsBasedIff(s: Server, h: Happening, t: Tracked)
    requires Complete(s) && SoundHere(s, t) && BasedHere(t) && OfOne(h)
    ensures BasedHere(Rendered(Worked(s, h, t))) <==> !(h.Browser? && Interloped(t.editor, h.ev))
  {
    match h
    case Browser(_, ev) => if Possible(t, ev) { EventIsBasedIff(t, ev); } else { StaysBased(t); }
    case Fetch(_, v) =>
      if Reading(s, v).Some? { EventIsBasedIff(t, Fetched(Reading(s, v).value)); } else { StaysBased(t); }
    case _ => OnServerIsBased(s, h, t);
  }

  lemma StaysBased(t: Tracked)
    requires BasedHere(t)
    ensures BasedHere(Rendered(t))
  {}

  lemma WorkSettlesIff(s: Server, h: Happening, t: Tracked)
    requires Complete(s) && SoundHere(s, t) && Settled(t) && OfOne(h)
    ensures Settled(Rendered(Worked(s, h, t))) <==> !(h.Browser? && Possible(t, h.ev) && Strays(t.editor, h.ev))
  {
    match h
    case Browser(_, ev) => if Possible(t, ev) { StepSettlesIff(s, t, ev); }
    case Fetch(_, v) => if Reading(s, v).Some? { StepSettlesIff(s, t, Fetched(Reading(s, v).value)); }
    case _ =>
  }

  lemma NextIsBasedIff(w: World, h: Happening)
    requires SoundWorld(w) && AllBased(w)
    ensures AllBased(Next(w, h)) <==> !Overtaken(w, h)
  {
    hide BasedHere, SoundHere, Interloped, Worked;
    if OfOne(h) && h.id in w.editors {
      WorkIsBasedIff(w.server, h, w.editors[h.id]);
      assert h.id in Next(w, h).editors;
    } else {
      OpenedIsBased(w.server.doc);
    }
  }

  lemma OpenedIsBased(doc: Doc)
    ensures BasedHere(Tracking(doc)) && Settled(Tracking(doc))
  {}

  lemma NextSettlesIff(w: World, h: Happening)
    requires SoundWorld(w) && AllSettled(w)
    ensures AllSettled(Next(w, h)) <==> !Misled(w, h)
  {
    hide Settled, SoundHere, Strays, Worked;
    if OfOne(h) && h.id in w.editors {
      WorkSettlesIff(w.server, h, w.editors[h.id]);
      assert h.id in Next(w, h).editors;
    } else {
      OpenedIsBased(w.server.doc);
    }
  }

  // ---------------------------------------------------------------------------- runs

  /** A document that has just been created, and nobody looking at it. */
  function Fresh(title: string, body: string): World { World(Created(title, body), map[], []) }

  function End(w: World, run: seq<Happening>): World
    decreases |run|
  {
    if run == [] then w else End(Next(w, run[0]), run[1..])
  }

  ghost predicate NoneRaces(w: World, run: seq<Happening>)
    decreases |run|
  {
    run != [] ==> !Races(w, run[0]) && NoneRaces(Next(w, run[0]), run[1..])
  }

  ghost predicate NoneOvertaken(w: World, run: seq<Happening>)
    decreases |run|
  {
    run != [] ==> !Overtaken(w, run[0]) && NoneOvertaken(Next(w, run[0]), run[1..])
  }

  ghost predicate NoneMisled(w: World, run: seq<Happening>)
    decreases |run|
  {
    run != [] ==> !Misled(w, run[0]) && NoneMisled(Next(w, run[0]), run[1..])
  }

  lemma {:induction false} RunIsSound(w: World, run: seq<Happening>)
    requires SoundWorld(w) && NoneRaces(w, run)
    ensures SoundWorld(End(w, run)) && Keeps(w.server, End(w, run).server)
    decreases |run|
  {
    if run != [] {
      NextIsSound(w, run[0]);
      RunIsSound(Next(w, run[0]), run[1..]);
      var mid, end := Next(w, run[0]).server, End(w, run).server;
      forall v | 1 <= v <= w.server.doc.version ensures At(end, v) == At(w.server, v) {
        assert At(mid, v) == At(w.server, v);
      }
    }
  }

  lemma {:induction false} RunIsBased(w: World, run: seq<Happening>)
    requires SoundWorld(w) && AllBased(w) && NoneRaces(w, run) && NoneOvertaken(w, run)
    ensures AllBased(End(w, run))
    decreases |run|
  {
    if run != [] {
      NextIsSound(w, run[0]);
      NextIsBasedIff(w, run[0]);
      RunIsBased(Next(w, run[0]), run[1..]);
    }
  }

  lemma {:induction false} RunIsSettled(w: World, run: seq<Happening>)
    requires SoundWorld(w) && AllSettled(w) && NoneRaces(w, run) && NoneMisled(w, run)
    ensures AllSettled(End(w, run))
    decreases |run|
  {
    if run != [] {
      NextIsSound(w, run[0]);
      NextSettlesIff(w, run[0]);
      RunIsSettled(Next(w, run[0]), run[1..]);
    }
  }

  // ------------------------------------------------------------- what a race leaves

  /** In any order of reads and writes: nothing that was read or has a snapshot is ahead of the document. */
  ghost predicate Ordered(w: World) {
    && 1 <= w.server.doc.version
    && (forall v <- w.server.snapshots :: 1 <= v <= w.server.doc.version && (v == w.server.doc.version ==> v == 1))
    && (forall p <- w.others :: 1 <= p.read.version <= w.server.doc.version)
    && (forall id <- w.editors :: ReadBefore(w.server.doc.version, w.editors[id]))
  }

  ghost predicate ReadBefore(v: Version, t: Tracked) {
    t.editor.flight.Some? && t.editor.flight.value.stage.Admitted? ==>
        1 <= t.editor.flight.value.stage.read.version <= v
  }

  /** A version that nobody can read. */
  ghost predicate Lost(s: Server, v: Version) { 1 <= v < s.doc.version && v !in s.snapshots }

  lemma EventReadsBefore(v: Version, t: Tracked, ev: Event)
    requires ReadBefore(v, t)
    ensures ReadBefore(v, Track(t, ev))
  {
    TrackFollows(t, ev);
    if !ev.Save? && !ev.Overwrite? { NoNewFlight(t, ev); }
  }

  lemma WorkReadsBefore(s: Server, h: Happening, t: Tracked)
    requires OfOne(h) && ReadBefore(s.doc.version, t) && 1 <= s.doc.version
    ensures ReadBefore(s.doc.version, Rendered(Worked(s, h, t)))
  {
    hide Track;
    match h
    case Browser(_, ev) => if Possible(t, ev) { EventReadsBefore(s.doc.version, t, ev); }
    case Fetch(_, v) => if Reading(s, v).Some? { EventReadsBefore(s.doc.version, t, Fetched(Reading(s, v).value)); }
    case _ =>
  }

  lemma TrackingReadsNothing(doc: Doc)
    ensures forall v :: ReadBefore(v, Tracking(doc))
  {}

  lemma NextIsOrdered(w: World, h: Happening)
    requires Ordered(w)
    ensures Ordered(Next(w, h)) && w.server.doc.version <= Next(w, h).server.doc.version
  {
    var next := Next(w, h);
    hide Worked, Rendered, Tracking;
    TrackingReadsNothing(w.server.doc);
    if OfOne(h) && h.id in w.editors {
      WorkReadsBefore(w.server, h, w.editors[h.id]);
      assert ReadBefore(w.server.doc.version, w.editors[h.id]);
    }
    forall id <- next.editors ensures ReadBefore(next.server.doc.version, next.editors[id]) {
      if id in w.editors { assert ReadBefore(w.server.doc.version, w.editors[id]); }
    }
    forall p <- next.others ensures 1 <= p.read.version <= next.server.doc.version {
      if p !in w.others { assert p.read == w.server.doc; }
    }
  }

  lemma RaceLosesTheLatest(w: World, h: Happening)
    requires Ordered(w) && Races(w, h)
    ensures Lost(Next(w, h).server, w.server.doc.version)
  {}

  /** Only a write that races can bring a lost version back, and it loses another. */
  lemma LostStaysLost(w: World, h: Happening, v: Version)
    requires Ordered(w) && Lost(w.server, v) && !Races(w, h)
    ensures Lost(Next(w, h).server, v)
  {}

  lemma {:induction false} RunLeavesLost(w: World, run: seq<Happening>, v: Version)
    requires Ordered(w) && Lost(w.server, v) && NoneRaces(w, run)
    ensures Lost(End(w, run).server, v)
    decreases |run|
  {
    if run != [] {
      NextIsOrdered(w, run[0]);
      LostStaysLost(w, run[0], v);
      RunLeavesLost(Next(w, run[0]), run[1..], v);
    }
  }

  lemma {:induction false} RaceLeavesLost(w: World, run: seq<Happening>) returns (v: Version)
    requires Ordered(w) && !NoneRaces(w, run)
    ensures Lost(End(w, run).server, v)
    decreases |run|
  {
    var next := Next(w, run[0]);
    NextIsOrdered(w, run[0]);
    if NoneRaces(next, run[1..]) {
      v := w.server.doc.version;
      RaceLosesTheLatest(w, run[0]);
      RunLeavesLost(next, run[1..], v);
    } else {
      v := RaceLeavesLost(next, run[1..]);
    }
  }

  // ------------------------------------------------------------------------- theorems

  lemma FreshIsSound(title: string, body: string)
    ensures var w := Fresh(title, body); SoundWorld(w) && AllBased(w) && AllSettled(w) && Ordered(w)
  {
    CreatedIsComplete(title, body);
  }

  /** Over any run of any number of editors and other writers, whose updates read and write in any order, all
      versions of the document can be read in the end if and only if no write has raced another. */
  lemma NothingIsLostIff(title: string, body: string, run: seq<Happening>)
    ensures Complete(End(Fresh(title, body), run).server) <==> NoneRaces(Fresh(title, body), run)
  {
    FreshIsSound(title, body);
    if NoneRaces(Fresh(title, body), run) {
      RunIsSound(Fresh(title, body), run);
    } else {
      var v := RaceLeavesLost(Fresh(title, body), run);
    }
  }

  /** This save names a version, and the server is about to write it. */
  ghost predicate CommitsUnforced(w: World, id: EditorId) {
    && id in w.editors && w.editors[id].editor.flight.Some?
    && w.editors[id].editor.flight.value.stage.Admitted? && w.editors[id].editor.flight.value.update.version.Some?
  }

  /** The version that the save of an editor replaces is one whose text the editor had taken or written when
      it made the text that it sends, or one that its user had been shown and chose to overwrite. */
  ghost predicate ReplacesWhatItHad(w: World, id: EditorId)
    requires id in w.editors
  {
    var t := w.editors[id];
    t.sentBasis == w.server.doc.version || t.sentAgreed == Some(w.server.doc.version)
  }

  lemma ReplacesIff(w: World, id: EditorId)
    requires SoundWorld(w) && AllBased(w) && CommitsUnforced(w, id)
    ensures ReplacesWhatItHad(w, id) <==> !Races(w, Commit(id))
  {
    assert SoundHere(w.server, w.editors[id]) && BasedHere(w.editors[id]);
  }

  /** No lost update, whatever the interleaving, unless an editor has been overtaken: until a write races,
      every save replaces what its editor had, and one that races does not. */
  lemma NoLostUpdateIff(title: string, body: string, run: seq<Happening>, id: EditorId)
    requires NoneRaces(Fresh(title, body), run) && NoneOvertaken(Fresh(title, body), run)
    requires CommitsUnforced(End(Fresh(title, body), run), id)
    ensures ReplacesWhatItHad(End(Fresh(title, body), run), id) <==> !Races(End(Fresh(title, body), run), Commit(id))
  {
    FreshIsSound(title, body);
    RunIsSound(Fresh(title, body), run);
    RunIsBased(Fresh(title, body), run);
    ReplacesIff(End(Fresh(title, body), run), id);
  }

  /** An editor that says all is saved shows the text of the version it is based on, as the server has it;
      and a keystroke that the server has not accepted keeps it from saying so. */
  lemma SavedMeansSaved(title: string, body: string, run: seq<Happening>, id: EditorId)
    requires NoneRaces(Fresh(title, body), run) && NoneMisled(Fresh(title, body), run)
    requires id in End(Fresh(title, body), run).editors
    ensures var w := End(Fresh(title, body), run);
            var e, owed := w.editors[id].editor, w.editors[id].owed;
            && Complete(w.server) && 1 <= e.base <= w.server.doc.version
            && (!Unsaved(e) ==> e.content == At(w.server, e.base).body)
            && (owed.Some? ==> Unsaved(e) && owed.value == e.content)
  {
    FreshIsSound(title, body);
    RunIsSound(Fresh(title, body), run);
    RunIsSettled(Fresh(title, body), run);
    var w := End(Fresh(title, body), run);
    assert SoundHere(w.server, w.editors[id]) && Settled(w.editors[id]);
  }

  /** What an overtaken editor is left with: a base that it never had. */
  lemma OvertakenBase(s: Server, t: Tracked, ev: Event)
    requires Complete(s) && Sound(s, t) && Interloped(t.editor, ev)
    ensures var next := Track(t, ev);
            && next.editor.flight == None && !next.editor.saving
               && next.editor.base == t.editor.flight.value.stage.doc.version
            && next.basis == t.editor.flight.value.stage.written && next.agreed == None
  {
    ArrivalOfText(t.editor, ev.split);
    StepKeepsDocs(s, t.editor, ev);
    TrackFollows(t, ev);
  }

  /** The condition is needed: an editor that has been overtaken, and saves before anybody else does,
      replaces a version that it never had and nobody agreed to overwrite, even if no write races. */
  lemma OvertakenLoses(w: World, h: Happening, title: string)
    requires SoundWorld(w) && Overtaken(w, h) && !w.server.archived
    requires w.editors[h.id].editor.flight.value.stage.doc.version == w.server.doc.version
    ensures var told := Next(w, h);
            var sent := Next(told, Browser(h.id, Save(title, false, RenderOf(told.editors[h.id]))));
            var next := Next(sent, Admit(h.id));
            CommitsUnforced(next, h.id) && !Races(next, Commit(h.id)) && !ReplacesWhatItHad(next, h.id)
  {
    OvertakenBase(w.server, w.editors[h.id], h.ev);
    var told := Next(w, h);
    assert told.editors[h.id] == Rendered(Track(w.editors[h.id], h.ev));
    var sent := Next(told, Browser(h.id, Save(title, false, RenderOf(told.editors[h.id]))));
    assert RenderOf(told.editors[h.id]) in told.editors[h.id].renders;
    var next := Next(sent, Admit(h.id));
    assert next.editors[h.id].editor.flight.Some?;
  }

}
