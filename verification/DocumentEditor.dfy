/** web/src/pages/DocumentEditor.tsx: the state of one editor of a document, and its requests. */
module DocumentEditor {
  import opened Wrappers
  import opened Documents

  datatype SaveState = Saved | Dirty | Saving | Conflict | Failed

  /** How far the one update request is: sent, admitted by the version that the server has read, committed, or
      answered. The answer to an update that went through is read from the document again, after the commit. */
  datatype Stage =
    | Sent
    | Admitted(read: Doc)
    | Committed(written: Version)
    | Accepted(written: Version, doc: Doc)
    | Rejected
    | Refused

  datatype Flight = Flight(update: Update, stage: Stage)

  /** The component's state and its ref, the document in the query cache, and what is on the network: the
      update, and the reads that follow a rejected one (None until the server has read the document). */
  datatype Editor = Editor(
    content: string, title: string, base: Version, state: SaveState, dialog: Option<Doc>, saving: bool,
    cached: Doc, flight: Option<Flight>, lookups: seq<Option<Doc>>)

  /** What the handlers of one render close over: its text and its base. `basis` and `agreed` are what its
      history says of that base. */
  datatype Render = Render(text: string, base: Version, basis: Version, agreed: Option<Version>)

  /** What happens in the browser. A save names the title it sends: the one in the editor, trimmed, or the
      document's own when nothing is left of it; and the render that made its handler, which a timer or a
      key may run when the page has gone on. `Arrive` has the page render, or not, between the write to the query
      cache and the callback of the save. */
  datatype Event =
    | Type(text: string)
    | Retitle(text: string)
    | InsertBlind(text: string)
    | Save(title: string, readOnly: bool, from: Render)
    | Overwrite(title: string, readOnly: bool, from: Render)
    | UseServer
    | CloseDialog
    | Arrive(split: bool)
    | Lose
    | LookupArrives(i: nat)
    | LookupFails(i: nat)
    | Fetched(doc: Doc)

  /** A document as the page first gets it. */
  function Opened(doc: Doc): Editor {
    Editor(doc.body, doc.title, doc.version, Saved, None, false, doc, None, [])
  }

  /** A write to the query cache, and the effect on the version of the document it holds: what the server
      has is adopted only when there are no local edits. */
  function Show(e: Editor, doc: Doc): Editor {
    if doc.version != e.cached.version && e.state == Saved
    then e.(cached := doc, content := doc.body, title := doc.title, base := doc.version)
    else e.(cached := doc)
  }

  function SaveNow(e: Editor, title: string, force: bool, readOnly: bool, from: Render): Editor {
    if readOnly || e.saving then e
    else
      var update := Update(Some(title), Some(from.text), if force then None else Some(from.base));
      e.(saving := true, state := Saving, flight := Some(Flight(update, Sent)))
  }

  /** The callback of a save that went through. */
  function OnSaved(e: Editor, doc: Doc): Editor {
    e.(base := doc.version, state := if e.state == Saving then Saved else e.state, saving := false, flight := None)
  }

  function OnArrival(e: Editor, split: bool): Editor {
    if e.flight == None then e
    else
      match e.flight.value.stage
      case Accepted(_, doc) => if split then OnSaved(Show(e, doc), doc) else Show(OnSaved(e, doc), doc)
      case Rejected => e.(saving := false, flight := None, lookups := e.lookups + [None])
      case Refused => e.(saving := false, flight := None, state := Failed)
      case _ => e
  }

  function Without<T>(s: seq<T>, i: nat): seq<T> {
    if i < |s| then s[..i] + s[i + 1..] else s
  }

  function Step(e: Editor, ev: Event): Editor {
    match ev
    case Type(text) => e.(content := text, state := Dirty)
    case Retitle(text) => e.(title := text, state := Dirty)
    case InsertBlind(text) => e.(content := e.content + text)
    case Save(title, readOnly, from) => SaveNow(e, title, false, readOnly, from)
    case Overwrite(title, readOnly, from) =>
      if e.dialog == None then e
      else SaveNow(e.(base := e.dialog.value.version, dialog := None), title, true, readOnly, from)
    case UseServer =>
      if e.dialog == None then e
      else
        var d := e.dialog.value;
        e.(cached := d, content := d.body, title := d.title, base := d.version, state := Saved, dialog := None)
    case CloseDialog => e.(dialog := None)
    case Arrive(split) => OnArrival(e, split)
    case Lose => if e.flight == None then e else e.(saving := false, flight := None, state := Failed)
    case LookupArrives(i) =>
      if i < |e.lookups| && e.lookups[i].Some?
      then e.(dialog := e.lookups[i], state := Conflict, lookups := Without(e.lookups, i))
      else e
    case LookupFails(i) => e.(lookups := Without(e.lookups, i))
    case Fetched(doc) => Show(e, doc)
  }

  /** What the page warns about before it is left. */
  predicate Unsaved(e: Editor) { e.state != Saved }

  // ------------------------------------------------------------------------- tracking

  /** An editor with what its history says of its text.
      `copy`: the version the text is a copy of, if nobody has edited it since.
      `owed`: the text as last edited here, until the server accepts it or the user gives it up.
      `basis`: the version last adopted or written here. `agreed`: the one since agreed to overwrite.
      `sentBasis` and `sentAgreed`: those two in the render that sent the request on its way.
      `renders`: all renders so far. */
  datatype Tracked = Tracked(
    editor: Editor, copy: Option<Version>, owed: Option<string>,
    basis: Version, agreed: Option<Version>, sentBasis: Version, sentAgreed: Option<Version>, renders: set<Render>)

  function RenderOf(t: Tracked): Render { Render(t.editor.content, t.editor.base, t.basis, t.agreed) }

  /** The page shows its state. */
  function Rendered(t: Tracked): Tracked { t.(renders := t.renders + {RenderOf(t)}) }

  function Tracking(doc: Doc): Tracked {
    Rendered(Tracked(Opened(doc), Some(doc.version), None, doc.version, None, doc.version, None, {}))
  }

  function Edited(t: Tracked, next: Editor, text: string): Tracked {
    t.(editor := next, copy := None, owed := Some(text))
  }

  /** The text was replaced by a version. */
  function Adopted(t: Tracked, next: Editor, v: Version): Tracked {
    t.(editor := next, copy := Some(v), owed := None, basis := v, agreed := None)
  }

  function Shown(t: Tracked, next: Editor, doc: Doc): Tracked {
    if doc.version != t.editor.cached.version && t.editor.state == Saved then Adopted(t, next, doc.version)
        else t.(editor := next)
  }

  function Launched(t: Tracked, next: Editor, from: Render): Tracked {
    if t.editor.flight == None && next.flight.Some?
        then t.(editor := next, sentBasis := from.basis, sentAgreed := from.agreed)
    else t.(editor := next)
  }

  /** A save went through: the text that was sent is version `written`, and so is the text in the editor if
      it is still that one. */
  function Landed(t: Tracked, split: bool, sent: Option<string>, written: Version, doc: Doc): Tracked {
    var e, next := t.editor, OnArrival(t.editor, split);
    var here := if e.state == Saving && sent == Some(e.content) then t.(copy := Some(written)) else t;
    var kept := here.(owed := if t.owed == sent then None else t.owed, basis := written, agreed := None);
    if doc.version != e.cached.version && (e.state == Saved || (e.state == Saving && !split))
        then Adopted(kept, next, doc.version)
    else if e.state == Saved then kept.(editor := next, basis := doc.version)
    else kept.(editor := next)
  }

  function Track(t: Tracked, ev: Event): Tracked {
    var e, next := t.editor, Step(t.editor, ev);
    match ev
    case Type(text) => Edited(t, next, text)
    case InsertBlind(text) => if text == "" then t.(editor := next) else Edited(t, next, e.content + text)
    case Save(_, _, from) => Launched(t, next, from)
    case Overwrite(_, _, from) =>
      if e.dialog == None then t
      else
        var agreed := Some(e.dialog.value.version);
        Launched(t.(agreed := agreed), next, from.(agreed := agreed))
    case UseServer => if e.dialog == None then t else Adopted(t, next, e.dialog.value.version)
    case Arrive(split) =>
      if e.flight.Some? && e.flight.value.stage.Accepted? then
        Landed(t, split, e.flight.value.update.body, e.flight.value.stage.written, e.flight.value.stage.doc)
      else t.(editor := next)
    case Fetched(doc) => Shown(t, next, doc)
    case _ => t.(editor := next)
  }

  // ------------------------------------------------------------------------ invariants

  ghost predicate SoundFlight(s: Server, f: Flight)
    requires Complete(s)
  {
    && f.update.body.Some?
    && (f.stage.Admitted? ==>
          IsVersion(s, f.stage.read) && (f.update.version.Some? ==> f.update.version.value == f.stage.read.version))
    && (f.stage.Committed? || f.stage.Accepted? ==>
          1 <= f.stage.written <= s.doc.version && At(s, f.stage.written).body == f.update.body.value)
    && (f.stage.Accepted? ==> IsVersion(s, f.stage.doc))
  }

  /** Everything the editor has of the document is a version of it. */
  ghost predicate SoundDocs(s: Server, e: Editor)
    requires Complete(s)
  {
    && IsVersion(s, e.cached) && (e.dialog.Some? ==> IsVersion(s, e.dialog.value))
    && (forall i :: 0 <= i < |e.lookups| ==> e.lookups[i].Some? ==> IsVersion(s, e.lookups[i].value))
    && 1 <= e.base <= s.doc.version
    && (e.flight.Some? ==> SoundFlight(s, e.flight.value))
  }

  /** What its history says of its text is true. */
  ghost predicate SoundText(s: Server, t: Tracked)
    requires Complete(s)
  {
    && (t.copy.Some? ==> 1 <= t.copy.value <= s.doc.version && t.editor.content == At(s, t.copy.value).body)
    && (t.owed.Some? ==> t.owed.value == t.editor.content)
  }

  /** Both, and the ref is set exactly while a request is on its way. */
  ghost predicate Sound(s: Server, t: Tracked)
    requires Complete(s)
  {
    SoundDocs(s, t.editor) && t.editor.saving == t.editor.flight.Some? && SoundText(s, t)
  }

  /** Saved means saved: the text is a copy of the version the editor is based on, which is the one in the
      cache, and nothing typed here waits for the server. While it is saving, the request has the text. */
  ghost predicate Settled(t: Tracked) {
    var e := t.editor;
    && (e.state == Saved ==> t.copy == Some(e.base) && e.base == e.cached.version && t.owed == None)
    && (e.state == Saving && e.flight.Some? ==> e.flight.value.update.body == Some(e.content))
  }

  /** The base of the next save is the version last adopted or written here, or one that the user agreed
      to overwrite. */
  ghost predicate Based(t: Tracked) {
    t.editor.base == t.basis || t.agreed == Some(t.editor.base)
  }

  /** So was the base of the save on its way, when it was sent. */
  ghost predicate SentBased(t: Tracked) {
    t.editor.flight.Some? && t.editor.flight.value.update.version.Some? ==>
      var v := t.editor.flight.value.update.version; v == Some(t.sentBasis) || v == t.sentAgreed
  }

  /** The answer to a save that somebody else's save got in front of: read from the document after it,
      and not adopted. */
  predicate Interloped(e: Editor, ev: Event) {
    && ev.Arrive? && e.flight.Some? && e.flight.value.stage.Accepted?
    && var stage := e.flight.value.stage;
       && stage.doc.version != stage.written && e.state != Saved
       && !(e.state == Saving && !ev.split && stage.doc.version != e.cached.version)
  }

  /** A save that starts with a text that is no longer the one in the editor. */
  predicate Outrun(e: Editor, ev: Event) {
    && (ev.Save? || (ev.Overwrite? && e.dialog.Some?))
    && !ev.readOnly && !e.saving && ev.from.text != e.content
  }

  /** The events that make Saved a lie: an insertion without a mounted view, while saved or while the text
      is on its way; choosing to overwrite another version when no save can start; such an answer; and a
      save by the handler of an earlier render, with an earlier text. */
  predicate Strays(e: Editor, ev: Event) {
    || Outrun(e, ev)
    || (ev.InsertBlind? && ev.text != "" && (e.state == Saved || (e.state == Saving && e.flight.Some?)))
    || (ev.Overwrite? && e.dialog.Some? && e.dialog.value.version != e.base && e.state == Saved
      && (ev.readOnly || e.saving))
    || (Interloped(e, ev) && e.state == Saving)
  }

  /** A document that arrives from the server is one of its versions. */
  ghost predicate Genuine(s: Server, ev: Event)
    requires Complete(s)
  {
    ev.Fetched? ==> IsVersion(s, ev.doc)
  }

  lemma SaveKeepsDocs(s: Server, e: Editor, title: string, force: bool, readOnly: bool, from: Render)
    requires Complete(s) && SoundDocs(s, e) && e.saving == e.flight.Some?
    ensures var next := SaveNow(e, title, force, readOnly, from); SoundDocs(s, next) && next.saving == next.flight.Some?
  {}

  lemma ArrivalKeepsDocs(s: Server, e: Editor, split: bool)
    requires Complete(s) && SoundDocs(s, e) && e.saving == e.flight.Some?
    ensures var next := OnArrival(e, split); SoundDocs(s, next) && next.saving == next.flight.Some?
  {}

  lemma LookupKeepsDocs(s: Server, e: Editor, i: nat)
    requires Complete(s) && SoundDocs(s, e)
    ensures SoundDocs(s, Step(e, LookupArrives(i))) && SoundDocs(s, Step(e, LookupFails(i)))
  {}

  lemma ChoiceKeepsDocs(s: Server, e: Editor, ev: Event)
    requires Complete(s) && SoundDocs(s, e) && e.saving == e.flight.Some? && (ev.Overwrite? || ev.UseServer?)
    ensures var next := Step(e, ev); SoundDocs(s, next) && next.saving == next.flight.Some?
  {
    if ev.Overwrite? && e.dialog.Some? {
      SaveKeepsDocs(s, e.(base := e.dialog.value.version, dialog := None), ev.title, true, ev.readOnly, ev.from);
    }
  }

  lemma StepKeepsDocs(s: Server, e: Editor, ev: Event)
    requires Complete(s) && SoundDocs(s, e) && Genuine(s, ev) && e.saving == e.flight.Some?
    ensures SoundDocs(s, Step(e, ev)) && Step(e, ev).saving == Step(e, ev).flight.Some?
  {
    match ev
    case Save(title, readOnly, from) => SaveKeepsDocs(s, e, title, false, readOnly, from);
    case Overwrite(_, _, _) => ChoiceKeepsDocs(s, e, ev);
    case UseServer => ChoiceKeepsDocs(s, e, ev);
    case Arrive(split) => ArrivalKeepsDocs(s, e, split);
    case LookupArrives(i) => LookupKeepsDocs(s, e, i);
    case LookupFails(i) => LookupKeepsDocs(s, e, i);
    case _ =>
  }

  lemma TrackFollows(t: Tracked, ev: Event)
    ensures Track(t, ev).editor == Step(t.editor, ev)
  {}

  /** What an answer does to the text: nothing, or it puts the version that arrived in its place. */
  lemma ArrivalOfText(e: Editor, split: bool)
    requires e.flight.Some? && e.flight.value.stage.Accepted?
    ensures var doc := e.flight.value.stage.doc;
            var adopts := doc.version != e.cached.version && (e.state == Saved || (e.state == Saving && !split));
            && OnArrival(e, split).content == (if adopts then doc.body else e.content)
            && OnArrival(e, split).base == doc.version && OnArrival(e, split).cached == doc
            && OnArrival(e, split).flight == None
            && OnArrival(e, split).state == (if e.state == Saving then Saved else e.state)
  {}

  lemma LandedIsSound(s: Server, t: Tracked, split: bool)
    requires Complete(s) && Sound(s, t) && t.editor.flight.Some? && t.editor.flight.value.stage.Accepted?
    ensures SoundText(s, Track(t, Arrive(split)))
  {
    ArrivalOfText(t.editor, split);
    assert IsVersion(s, t.editor.flight.value.stage.doc);
  }

  lemma TextStaysSound(s: Server, t: Tracked, ev: Event)
    requires Complete(s) && Sound(s, t) && Genuine(s, ev) && !ev.Arrive?
    ensures SoundText(s, Track(t, ev))
  {}

  lemma StepIsSound(s: Server, t: Tracked, ev: Event)
    requires Complete(s) && Sound(s, t) && Genuine(s, ev)
    ensures Sound(s, Track(t, ev))
  {
    StepKeepsDocs(s, t.editor, ev);
    TrackFollows(t, ev);
    if !ev.Arrive? {
      TextStaysSound(s, t, ev);
    } else if t.editor.flight.Some? && t.editor.flight.value.stage.Accepted? {
      LandedIsSound(s, t, ev.split);
    }
  }

  lemma LandedSettlesIff(s: Server, t: Tracked, split: bool)
    requires Complete(s) && Sound(s, t) && Settled(t) && t.editor.flight.Some? && t.editor.flight.value.stage.Accepted?
    ensures Settled(Track(t, Arrive(split))) <==> !Strays(t.editor, Arrive(split))
  {
    ArrivalOfText(t.editor, split);
  }

  lemma InsertSettlesIff(t: Tracked, text: string)
    requires Settled(t)
    ensures Settled(Track(t, InsertBlind(text))) <==> !Strays(t.editor, InsertBlind(text))
  {
    var before := t.editor.content;
    assert if text == "" then before + text == before else |before + text| > |before|;
  }

  lemma SaveSettlesIff(t: Tracked, ev: Event)
    requires Settled(t) && t.editor.saving == t.editor.flight.Some? && (ev.Save? || ev.Overwrite?)
    requires t.owed.Some? ==> t.owed.value == t.editor.content
    ensures Settled(Track(t, ev)) <==> !Strays(t.editor, ev)
  {}

  lemma OtherwiseSettles(t: Tracked, ev: Event)
    requires Settled(t) && !ev.Save? && !ev.Overwrite? && !ev.InsertBlind? && !ev.Arrive?
    ensures Settled(Track(t, ev))
  {}

  /** Exactly those events unsettle an editor. */
  lemma StepSettlesIff(s: Server, t: Tracked, ev: Event)
    requires Complete(s) && Sound(s, t) && Genuine(s, ev) && Settled(t)
    ensures Settled(Track(t, ev)) <==> !Strays(t.editor, ev)
  {
    match ev
    case Arrive(split) =>
      if t.editor.flight.Some? && t.editor.flight.value.stage.Accepted? { LandedSettlesIff(s, t, split); }
    case InsertBlind(text) => InsertSettlesIff(t, text);
    case Save(_, _, _) => SaveSettlesIff(t, ev);
    case Overwrite(_, _, _) => SaveSettlesIff(t, ev);
    case _ => OtherwiseSettles(t, ev);
  }

  lemma LandedIsBasedIff(t: Tracked, split: bool)
    requires Based(t) && t.editor.flight.Some? && t.editor.flight.value.stage.Accepted?
    ensures Based(Track(t, Arrive(split))) <==> !Interloped(t.editor, Arrive(split))
  {}

  /** And exactly an answer that somebody got in front of leaves it on a base it never had. */
  lemma StepIsBasedIff(t: Tracked, ev: Event)
    requires Based(t)
    ensures Based(Track(t, ev)) <==> !Interloped(t.editor, ev)
  {
    if ev.Arrive? && t.editor.flight.Some? && t.editor.flight.value.stage.Accepted? {
      LandedIsBasedIff(t, ev.split);
    }
  }

  /** So was every render's base when it was made. */
  ghost predicate RenderBased(r: Render) { r.base == r.basis || r.agreed == Some(r.base) }

  ghost predicate RendersBased(t: Tracked) { forall r <- t.renders :: RenderBased(r) }

  lemma NoNewFlight(t: Tracked, ev: Event)
    requires !ev.Save? && !ev.Overwrite?
    ensures var next := Track(t, ev);
            || next.editor.flight == None
            || (next.editor.flight == t.editor.flight && next.sentBasis == t.sentBasis
              && next.sentAgreed == t.sentAgreed)
  {}

  lemma StepSendsBased(t: Tracked, ev: Event)
    requires SentBased(t) && t.editor.saving == t.editor.flight.Some? && (ev.Save? ==> RenderBased(ev.from))
    ensures SentBased(Track(t, ev))
  {
    if !ev.Save? && !ev.Overwrite? { NoNewFlight(t, ev); }
  }

  // ------------------------------------------------------------------------- versions

  /** What was adopted, written or agreed to is no later than the server, ... */
  predicate Known(v: Version, basis: Version, agreed: Option<Version>) {
    basis <= v && (agreed.Some? ==> agreed.value <= v)
  }

  ghost predicate RendersKnown(v: Version, t: Tracked) {
    Known(v, t.basis, t.agreed) && forall r <- t.renders :: Known(v, r.basis, r.agreed)
  }

  /** ... and in the request on its way no later than what the server has read for it. */
  ghost predicate SentKnown(v: Version, t: Tracked) {
    t.editor.flight.Some? && (t.editor.flight.value.stage.Sent? || t.editor.flight.value.stage.Admitted?) ==>
      var stage := t.editor.flight.value.stage;
      Known(if stage.Admitted? then stage.read.version else v, t.sentBasis, t.sentAgreed)
  }

  lemma LandedIsKnown(s: Server, t: Tracked, split: bool)
    requires Complete(s) && Sound(s, t) && t.editor.flight.Some? && t.editor.flight.value.stage.Accepted?
    requires RendersKnown(s.doc.version, t)
    ensures RendersKnown(s.doc.version, Track(t, Arrive(split)))
  {
    ArrivalOfText(t.editor, split);
  }

  lemma StepIsKnown(s: Server, t: Tracked, ev: Event)
    requires Complete(s) && Sound(s, t) && Genuine(s, ev) && RendersKnown(s.doc.version, t)
    ensures RendersKnown(s.doc.version, Track(t, ev))
  {
    if ev.Arrive? && t.editor.flight.Some? && t.editor.flight.value.stage.Accepted? { LandedIsKnown(s, t, ev.split); }
  }

  lemma StepSendsKnown(s: Server, t: Tracked, ev: Event)
    requires Complete(s) && Sound(s, t) && RendersKnown(s.doc.version, t) && SentKnown(s.doc.version, t)
    requires ev.Save? || ev.Overwrite? ==> Known(s.doc.version, ev.from.basis, ev.from.agreed)
    ensures SentKnown(s.doc.version, Track(t, ev))
  {
    if !ev.Save? && !ev.Overwrite? { NoNewFlight(t, ev); }
  }

}
