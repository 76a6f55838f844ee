/** The component of web/src/pages/DocumentEditor.tsx and the row it saves to, as objects that change. */
module EditorPage {
  import opened Wrappers
  import D = Documents
  import E = DocumentEditor
  import W = DocumentWorld

  /** Saved means saved, and a save replaces only what the editor has had or agreed to overwrite. */
  ghost predicate Honest(t: E.Tracked) { E.Settled(t) && W.BasedHere(t) }

  /** What any event of the page keeps. */
  lemma EventIsSound(s: D.Server, t: E.Tracked, ev: E.Event)
    requires D.Complete(s) && W.SoundHere(s, t) && E.Genuine(s, ev)
        && (ev.Save? || ev.Overwrite? ==> ev.from in t.renders)
    ensures var next := E.Rendered(E.Track(t, ev)); next.editor == E.Step(t.editor, ev) && W.SoundHere(s, next)
    ensures Honest(t) ==> (Honest(E.Rendered(E.Track(t, ev))) <==>
        !E.Strays(t.editor, ev) && !E.Interloped(t.editor, ev))
  {
    SettledIsOfState(E.Track(t, ev));
    hide E.Track, E.Step, E.Settled, W.BasedHere, E.RendersKnown, E.SentKnown, E.SoundDocs, E.SoundText, E.Strays,
        E.Interloped;
    E.TrackFollows(t, ev);
    W.EventIsSound(s, t, ev);
    W.RenderedIsSound(s, E.Track(t, ev));
    if Honest(t) {
      E.StepSettlesIff(s, t, ev);
      W.EventIsBasedIff(t, ev);
    }
  }

  lemma SettledIsOfState(t: E.Tracked)
    ensures E.Settled(E.Rendered(t)) <==> E.Settled(t)
  {}

  /** The page's history after an event. */
  ghost function After(t: E.Tracked, ev: E.Event): E.Tracked { E.Rendered(E.Track(t, ev)) }

  /** What the editor says is saved is the text of its version. */
  lemma HonestText(s: D.Server, t: E.Tracked)
    requires D.Complete(s) && E.Sound(s, t) && Honest(t) && !E.Unsaved(t.editor)
    ensures 1 <= t.editor.base <= s.doc.version && t.editor.content == D.At(s, t.editor.base).body && t.owed == None
    ensures t.editor.base == t.editor.cached.version
  {}

  lemma DialogIsVersion(s: D.Server, t: E.Tracked)
    requires D.Complete(s) && W.SoundHere(s, t) && t.editor.dialog.Some?
    ensures D.IsVersion(s, t.editor.dialog.value)
  {}

  lemma ServerWorks(s: D.Server, later: D.Server, t: E.Tracked, stage: E.Stage)
    requires D.Complete(s) && W.SoundHere(s, t) && D.Keeps(s, later) && t.editor.flight.Some?
    requires E.SoundFlight(later, t.editor.flight.value.(stage := stage))
    requires stage.Sent? ==> t.editor.flight.value.stage.Sent?
    requires stage.Admitted? ==>
               stage == t.editor.flight.value.stage || (t.editor.flight.value.stage.Sent? && stage.read == later.doc)
    ensures var next := t.(editor := t.editor.(flight := Some(t.editor.flight.value.(stage := stage))));
            W.SoundHere(later, next) && (Honest(t) ==> Honest(next))
  {
    W.LaterIsSound(s, later, t);
  }

  lemma ServerLooksUp(s: D.Server, t: E.Tracked, i: nat)
    requires D.Complete(s) && W.SoundHere(s, t) && i < |t.editor.lookups|
    ensures var next := t.(editor := t.editor.(lookups := t.editor.lookups[i := Some(s.doc)]));
            W.SoundHere(s, next) && (Honest(t) ==> Honest(next))
  {}

  class EditorPage {
    var content: string
    var title: string
    var baseVersion: D.Version
    var state: E.SaveState
    var conflict: Option<D.Doc>
    var saving: bool
    /** The document in the query cache, the update on the network, and the reads of a conflict. */
    var cached: D.Doc
    var flight: Option<E.Flight>
    var lookups: seq<Option<D.Doc>>

    /** What the page's history says of its text. */
    ghost var past: E.Tracked

    function State(): E.Editor
      reads this
    {
      E.Editor(content, title, baseVersion, state, conflict, saving, cached, flight, lookups)
    }

    /** All that the page has of the document are versions of it, and its history is true of its text. */
    ghost predicate Valid(s: D.Server)
      reads this
    {
      D.Complete(s) && past.editor == State() && W.SoundHere(s, past)
    }

    ghost predicate IsHonest()
      reads this
    {
      Honest(past)
    }

    constructor (ghost s: D.Server, doc: D.Doc)
      requires D.Complete(s) && D.IsVersion(s, doc)
      ensures Valid(s) && IsHonest() && past == E.Tracking(doc)
      ensures !E.Unsaved(State()) && content == doc.body && baseVersion == doc.version
    {
      content, title, baseVersion := doc.body, doc.title, doc.version;
      state, conflict, saving := E.Saved, None, false;
      cached, flight, lookups := doc, None, [];
      past := E.Tracking(doc);
    }

    /** The typing handler of the text: what was typed is owed to the user until a save lands. */
    method OnChange(text: string, ghost s: D.Server)
      requires Valid(s)
      modifies this
      ensures Valid(s) && past == After(old(past), E.Type(text)) && (old(IsHonest()) ==> IsHonest())
      ensures state == E.Dirty && past.owed == Some(content) && content == text
      ensures unchanged(`title, `baseVersion, `conflict, `saving, `cached, `flight, `lookups)
    {
      hide W.SoundHere, Honest;
      EventIsSound(s, past, E.Type(text));
      content := text;
      state := E.Dirty;
      past := After(past, E.Type(text));
    }

    /** A new title is unsaved, and so is the text with it. */
    method OnTitle(text: string, ghost s: D.Server)
      requires Valid(s)
      modifies this
      ensures Valid(s) && past == After(old(past), E.Retitle(text)) && (old(IsHonest()) ==> IsHonest())
      ensures state == E.Dirty && title == text && past.owed == old(past).owed
      ensures unchanged(`content, `baseVersion, `conflict, `saving, `cached, `flight, `lookups)
    {
      hide W.SoundHere, Honest;
      EventIsSound(s, past, E.Retitle(text));
      title := text;
      state := E.Dirty;
      past := After(past, E.Retitle(text));
    }

    /** Inserting a reference: through the view when there is one, else straight into the text, which the
        page then takes for saved if it said so or if a save without it is on its way. */
    method Insert(text: string, edited: Option<string>, ghost s: D.Server)
      requires Valid(s)
      modifies this
      ensures Valid(s) && past == After(old(past), if edited.Some? then E.Type(edited.value) else E.InsertBlind(text))
      ensures content == if edited.Some? then edited.value else old(content) + text
      ensures state == if edited.Some? then E.Dirty else old(state)
      ensures unchanged(`title, `baseVersion, `conflict, `saving, `cached, `flight, `lookups)
      ensures edited.Some? || text != "" ==> past.owed == Some(content)
      ensures old(IsHonest()) ==>
                (IsHonest() <==>
                   edited.Some? || text == "" || (old(state) != E.Saved
                       && (old(state) != E.Saving || old(flight) == None)))
    {
      if edited == None {
        hide W.SoundHere, Honest;
        EventIsSound(s, past, E.InsertBlind(text));
        content := content + text;
        past := After(past, E.InsertBlind(text));
        return;
      }
      OnChange(edited.value, s);
    }

    /** A fetch brings a version of the document. Edits are never replaced by it; without any, the page
        shows what was fetched. */
    method OnFetched(doc: D.Doc, ghost s: D.Server)
      requires Valid(s) && D.IsVersion(s, doc)
      modifies this
      ensures Valid(s) && past == After(old(past), E.Fetched(doc)) && (old(IsHonest()) ==> IsHonest())
      ensures cached == doc && unchanged(`state, `conflict, `saving, `flight, `lookups)
      ensures if state == E.Saved && doc.version != old(cached.version)
              then content == doc.body && title == doc.title && baseVersion == doc.version
              else unchanged(`content, `title, `baseVersion)
      ensures old(IsHonest()) && !E.Unsaved(State()) ==> content == doc.body && baseVersion == doc.version
    {
      EventIsSound(s, past, E.Fetched(doc));
      ghost var next := After(past, E.Fetched(doc));
      if Honest(next) && !E.Unsaved(next.editor) { HonestText(s, next); }
      hide W.SoundHere, Honest;
      OnDocument(doc);
      past := next;
    }

    /** The write to the cache and the effect on its version. */
    method OnDocument(doc: D.Doc)
      modifies this
      ensures State() == E.Show(old(State()), doc) && past == old(past)
    {
      var changed := doc.version != cached.version;
      cached := doc;
      if changed && state == E.Saved {
        content := doc.body;
        title := doc.title;
        baseVersion := doc.version;
      }
    }

    method Submit(force: bool, sentTitle: string, readOnly: bool, from: E.Render)
      modifies this
      ensures State() == E.SaveNow(old(State()), sentTitle, force, readOnly, from) && past == old(past)
    {
      if readOnly || saving { return; }
      saving := true;
      state := E.Saving;
      var version := if force then None else Some(from.base);
      flight := Some(E.Flight(D.Update(Some(sentTitle), Some(from.text), version), E.Sent));
    }

    /** One save at a time. Its handler is that of some render, and asks to put the text of that render in
        place of a version that the editor had then, or that its user had agreed to overwrite. The page then
        takes its own text for the one that is sent, and is wrong if that has changed since. */
    method Save(sentTitle: string, readOnly: bool, from: E.Render, ghost s: D.Server)
      requires Valid(s) && from in past.renders
      modifies this
      ensures Valid(s) && past == After(old(past), E.Save(sentTitle, readOnly, from)) && content == old(content)
      ensures readOnly || old(saving) ==> State() == old(State())
      ensures !readOnly && !old(saving) ==>
                && saving && state == E.Saving
                && flight == Some(E.Flight(D.Update(Some(sentTitle), Some(from.text), Some(from.base)), E.Sent))
      ensures unchanged(`title, `baseVersion, `conflict, `cached, `lookups)
      ensures old(IsHonest()) ==>
                && (from.base == from.basis || from.agreed == Some(from.base))
                && (IsHonest() <==> readOnly || old(saving) || from.text == content)
    {
      EventIsSound(s, past, E.Save(sentTitle, readOnly, from));
      ghost var next := After(past, E.Save(sentTitle, readOnly, from));
      assert Honest(past) ==> E.RenderBased(from);
      hide W.SoundHere, Honest;
      Submit(false, sentTitle, readOnly, from);
      past := next;
    }

    method OnSuccess(saved: D.Doc)
      modifies this
      ensures State() == E.OnSaved(old(State()), saved) && past == old(past)
    {
      baseVersion := saved.version;
      if state == E.Saving { state := E.Saved; }
      saving := false;
      flight := None;
    }

    /** The answer of the server, with or without a render between the cache and the callback. The page may
        save again; its text is what it was or what the document is by now; and the one answer that makes it
        dishonest is that somebody else's save got in between and was not shown. */
    method OnAnswer(split: bool, ghost s: D.Server)
      requires Valid(s) && flight.Some?
      requires flight.value.stage.Accepted? || flight.value.stage.Rejected? || flight.value.stage.Refused?
      modifies this
      ensures Valid(s) && past == After(old(past), E.Arrive(split)) && !saving && flight == None
      ensures var stage := old(flight.value.stage);
              if stage.Accepted? then
                var shows := stage.doc.version != old(cached.version)
                             && (old(state) == E.Saved || (old(state) == E.Saving && !split));
                && state == (if old(state) == E.Saving then E.Saved else old(state))
                && baseVersion == stage.doc.version && cached == stage.doc && lookups == old(lookups)
                && if shows then content == stage.doc.body && title == stage.doc.title else unchanged(`content, `title)
              else
                && unchanged(`content, `title, `baseVersion, `cached)
                && state == (if stage.Refused? then E.Failed else old(state))
                && lookups == if stage.Refused? then old(lookups) else old(lookups) + [None]
      ensures conflict == old(conflict)
      ensures old(IsHonest()) ==> (IsHonest() <==> !E.Interloped(old(State()), E.Arrive(split)))
    {
      EventIsSound(s, past, E.Arrive(split));
      hide W.SoundHere, Honest;
      ghost var next := After(past, E.Arrive(split));
      match flight.value.stage {
        case Accepted(_, doc) =>
          if split {
            OnDocument(doc);
            OnSuccess(doc);
          } else {
            OnSuccess(doc);
            OnDocument(doc);
          }
        case Rejected =>
          lookups := lookups + [None];
          saving := false;
          flight := None;
        case Refused =>
          OnError();
      }
      past := next;
    }

    method OnError()
      modifies this
      ensures State() == old(State()).(saving := false, flight := None, state := E.Failed) && past == old(past)
    {
      state := E.Failed;
      saving := false;
      flight := None;
    }

    /** The answer never came: the text is there, unsaved, and can be saved again. */
    method OnLost(ghost s: D.Server)
      requires Valid(s) && flight.Some?
      modifies this
      ensures Valid(s) && past == After(old(past), E.Lose) && (old(IsHonest()) ==> IsHonest())
      ensures state == E.Failed && !saving && flight == None && past.owed == old(past).owed
      ensures unchanged(`content, `title, `baseVersion, `conflict, `cached, `lookups)
    {
      hide W.SoundHere, Honest;
      EventIsSound(s, past, E.Lose);
      OnError();
      past := After(past, E.Lose);
    }

    /** The read that follows a rejected save is back: the dialog shows a version of the document, and the
        text is untouched. */
    method OnConflict(i: nat, ghost s: D.Server)
      requires Valid(s) && i < |lookups| && lookups[i].Some?
      modifies this
      ensures Valid(s) && past == After(old(past), E.LookupArrives(i)) && (old(IsHonest()) ==> IsHonest())
      ensures conflict == old(lookups[i]) && D.IsVersion(s, conflict.value)
      ensures state == E.Conflict && past.owed == old(past).owed && |lookups| == old(|lookups|) - 1
      ensures unchanged(`content, `title, `baseVersion, `saving, `cached, `flight)
    {
      EventIsSound(s, past, E.LookupArrives(i));
      assert D.IsVersion(s, lookups[i].value);
      hide W.SoundHere, Honest;
      conflict := lookups[i];
      state := E.Conflict;
      lookups := lookups[..i] + lookups[i + 1..];
      past := After(past, E.LookupArrives(i));
    }

    /** Giving up the text for the version in the dialog: the page then says saved, and has that version. */
    method UseServer(ghost s: D.Server)
      requires Valid(s) && conflict.Some?
      modifies this
      ensures Valid(s) && past == After(old(past), E.UseServer) && (old(IsHonest()) ==> IsHonest())
      ensures state == E.Saved && conflict == None && past.owed == None && cached == old(conflict.value)
      ensures title == old(conflict.value.title) && unchanged(`saving, `flight, `lookups)
      ensures past.copy == Some(baseVersion) && past.basis == baseVersion && past.agreed == None
      ensures baseVersion == old(conflict.value.version) && 1 <= baseVersion <= s.doc.version
          && content == D.At(s, baseVersion).body
    {
      hide W.SoundHere, Honest;
      DialogIsVersion(s, past);
      EventIsSound(s, past, E.UseServer);
      past := After(past, E.UseServer);
      cached := conflict.value;
      content := conflict.value.body;
      title := conflict.value.title;
      baseVersion := conflict.value.version;
      state := E.Saved;
      conflict := None;
    }

    /** Overwriting the version in the dialog: the save that goes out takes any version's place, with the
        user's agreement to that one. If none can go out, a page that said saved no longer has its version. */
    method Overwrite(sentTitle: string, readOnly: bool, from: E.Render, ghost s: D.Server)
      requires Valid(s) && conflict.Some? && from in past.renders
      modifies this
      ensures Valid(s) && past == After(old(past), E.Overwrite(sentTitle, readOnly, from))
      ensures conflict == None && content == old(content) && past.owed == old(past).owed
      ensures past.agreed == Some(old(conflict.value.version))
      ensures baseVersion == old(conflict.value.version) && unchanged(`title, `cached, `lookups)
      ensures if readOnly || old(saving) then unchanged(`state, `saving, `flight) else
                && flight == Some(E.Flight(D.Update(Some(sentTitle), Some(from.text), None), E.Sent))
                && saving && state == E.Saving && past.sentAgreed == past.agreed
      ensures old(IsHonest()) ==>
                (IsHonest() <==>
                   if readOnly || old(saving) then old(state) != E.Saved || old(conflict.value.version == baseVersion)
                   else from.text == content)
    {
      EventIsSound(s, past, E.Overwrite(sentTitle, readOnly, from));
      ghost var next := After(past, E.Overwrite(sentTitle, readOnly, from));
      assert saving == flight.Some?;
      hide W.SoundHere, Honest;
      baseVersion := conflict.value.version;
      conflict := None;
      Submit(true, sentTitle, readOnly, from);
      past := next;
    }

    /** Meanwhile the server gets on with the save, and others may write: all this stays so. */
    method OnServerWork(stage: E.Stage, ghost s: D.Server, ghost later: D.Server)
      requires Valid(s) && flight.Some? && D.Keeps(s, later) && E.SoundFlight(later, flight.value.(stage := stage))
      requires stage.Sent? ==> flight.value.stage.Sent?
      requires stage.Admitted? ==> stage == flight.value.stage || (flight.value.stage.Sent? && stage.read == later.doc)
      modifies this`flight, this`past
      ensures Valid(later) && (old(IsHonest()) ==> IsHonest())
      ensures past == old(past).(editor := State()) && flight == Some(old(flight.value).(stage := stage))
    {
      ServerWorks(s, later, past, stage);
      hide W.SoundHere, Honest;
      flight := Some(flight.value.(stage := stage));
      past := past.(editor := State());
    }

    method OnServerLookup(i: nat, current: D.Doc, ghost s: D.Server)
      requires Valid(s) && i < |lookups| && current == s.doc
      modifies this`lookups, this`past
      ensures Valid(s) && (old(IsHonest()) ==> IsHonest())
      ensures past == old(past).(editor := State()) && lookups == old(lookups)[i := Some(current)]
    {
      ServerLooksUp(s, past, i);
      hide W.SoundHere, Honest;
      lookups := lookups[i := Some(current)];
      past := past.(editor := State());
    }
  }

  /** The row of a document and its snapshots. */
  class DocumentTable {
    var doc: D.Doc
    var archived: bool
    var snapshots: map<D.Version, D.Doc>

    function State(): D.Server
      reads this
    {
      D.Server(doc, archived, snapshots)
    }

    ghost predicate Valid()
      reads this
    {
      D.Complete(State())
    }

    constructor (title: string, body: string)
      ensures Valid() && State() == D.Created(title, body)
    {
      var created := D.Doc(1, D.BTrim(title), body);
      doc, archived, snapshots := created, false, map[1 := created];
      new;
      D.CreatedIsComplete(title, body);
    }

    /** The first half of document_update: what it reads, and what it decides by that. */
    method Admit(u: D.Update) returns (verdict: D.Verdict, read: D.Doc)
      ensures verdict == D.Decide(State(), u) && read == doc
    {
      read := doc;
      if archived { return D.NotFound, read; }
      if u.version.Some? && read.version != u.version.value { return D.Stale, read; }
      verdict := D.Updated;
    }

    /** The second half. It loses a version if and only if somebody else has written since the first. */
    method Store(u: D.Update, read: D.Doc)
      requires Valid() && D.IsVersion(State(), read)
      modifies this
      ensures State() == D.Write(old(State()), read, u)
      ensures D.Keeps(old(State()), State()) <==> old(doc.version) == read.version
      ensures doc.version == old(doc.version) + 1 && doc.body == if u.body.Some? then u.body.value else old(doc.body)
      ensures if u.title == None then doc.title == old(doc.title) else D.Unpadded(u.title.value, doc.title)
    {
      D.RaceLosesIff(State(), read, u);
      if read.version !in snapshots { snapshots := snapshots[read.version := read]; }
      var title := if u.title.Some? then D.BTrim(u.title.value) else doc.title;
      var body := if u.body.Some? then u.body.value else doc.body;
      doc := D.Doc(doc.version + 1, title, body);
    }

    /** document_update with nothing in between: nothing of what was there is lost, and what is asked for is
        there as the next version, exactly if the caller knew the current one or did not say. */
    method Update(u: D.Update) returns (verdict: D.Verdict)
      requires Valid()
      modifies this
      ensures Valid() && D.Keeps(old(State()), State())
      ensures verdict.Updated? <==> !old(archived) && (u.version == None || u.version == Some(old(doc.version)))
      ensures verdict.Updated? ==>
                && doc.version == old(doc.version) + 1
                && doc.body == (if u.body.Some? then u.body.value else old(doc.body))
                && if u.title == None then doc.title == old(doc.title) else D.Unpadded(u.title.value, doc.title)
      ensures !verdict.Updated? ==> State() == old(State()) && verdict == (if archived then D.NotFound else D.Stale)
      ensures (State(), verdict) == D.DocumentUpdate(old(State()), u)
    {
      D.UpdatesKeepEveryVersion(State(), u);
      D.WriteAtOnce(State(), u);
      var read;
      verdict, read := Admit(u);
      if verdict.Updated? { Store(u, read); }
    }
  }
}
