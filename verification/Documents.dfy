/** document_update of db/document/document_functions.sql: a versioned document and its snapshots. */
module Documents {
  import opened Wrappers

  type Version = nat

  datatype Doc = Doc(version: Version, title: string, body: string)

  /** The row of the document and its rows in document_version. */
  datatype Server = Server(doc: Doc, archived: bool, snapshots: map<Version, Doc>)

  datatype Update = Update(title: Option<string>, body: Option<string>, version: Option<Version>)

  datatype Verdict = Updated | NotFound | Stale

  /** btrim of one argument takes blanks off both ends. */
  function BTrim(s: string): string {
    if s == "" then ""
    else if s[0] == ' ' then BTrim(s[1..])
    else if s[|s| - 1] == ' ' then BTrim(s[..|s| - 1])
    else s
  }

  /** `t` is the longest stretch of `s` without a blank at either end, and all around it is blank. */
  ghost predicate Unpadded(s: string, t: string) {
    exists i: nat, j: nat :: Core(s, i, j) && t == s[i..j]
  }

  ghost predicate Core(s: string, i: nat, j: nat) {
    && i <= j <= |s| && (forall k :: 0 <= k < i || j <= k < |s| ==> s[k] == ' ')
    && (i < j ==> s[i] != ' ' && s[j - 1] != ' ')
  }

  lemma {:induction false} BTrimHasCore(s: string) returns (i: nat, j: nat)
    ensures Core(s, i, j) && BTrim(s) == s[i..j]
  {
    i, j := 0, |s|;
    if s != "" && s[0] == ' ' {
      i, j := BTrimHasCore(s[1..]);
      assert s[1..][i..j] == s[i + 1..j + 1];
      i, j := i + 1, j + 1;
    } else if s != "" && s[|s| - 1] == ' ' {
      i, j := BTrimHasCore(s[..|s| - 1]);
    }
  }

  lemma CoreIsUnique(s: string, i: nat, j: nat, i': nat, j': nat)
    requires Core(s, i, j) && Core(s, i', j')
    ensures s[i..j] == s[i'..j']
  {
    if i < j || i' < j' {
      assert i == i' && j == j';
    }
  }

  lemma BTrimIff(s: string, t: string)
    ensures Unpadded(s, t) <==> t == BTrim(s)
  {
    var i, j := BTrimHasCore(s);
    if Unpadded(s, t) {
      var i': nat, j': nat :| Core(s, i', j') && t == s[i'..j'];
      CoreIsUnique(s, i, j, i', j');
    }
  }

  function DocumentUpdate(s: Server, u: Update): (Server, Verdict) {
    if s.archived then (s, NotFound)
    else if u.version.Some? && s.doc.version != u.version.value then (s, Stale)
    else
      var snapshots := if s.doc.version in s.snapshots then s.snapshots else s.snapshots[s.doc.version := s.doc];
      var title := if u.title.Some? then BTrim(u.title.value) else s.doc.title;
      var body := if u.body.Some? then u.body.value else s.doc.body;
      (Server(Doc(s.doc.version + 1, title, body), s.archived, snapshots), Updated)
  }

  /** document_create: the first version has its snapshot from the start. */
  function Created(title: string, body: string): Server {
    var doc := Doc(1, BTrim(title), body);
    Server(doc, false, map[1 := doc])
  }

  /** Every earlier version has its snapshot, and of current versions only the first one may. */
  ghost predicate Complete(s: Server) {
    && s.doc.version >= 1
    && (forall v :: 1 <= v < s.doc.version ==> v in s.snapshots && s.snapshots[v].version == v)
    && (s.doc.version in s.snapshots ==> s.doc.version == 1 && s.snapshots[s.doc.version] == s.doc)
    && (forall v <- s.snapshots :: 1 <= v <= s.doc.version)
  }

  /** Any version of the document, the current one or one read back from its snapshots. */
  function At(s: Server, v: Version): (d: Doc)
    requires Complete(s) && 1 <= v <= s.doc.version
    ensures d.version == v
  {
    if v == s.doc.version then s.doc else s.snapshots[v]
  }

  /** What a reader gets for a version: that document, unless it has been lost. */
  function Reading(s: Server, v: Version): (d: Option<Doc>)
    ensures Complete(s) ==> d == if 1 <= v <= s.doc.version then Some(At(s, v)) else None
  {
    if v == s.doc.version then Some(s.doc) else if v in s.snapshots then Some(s.snapshots[v]) else None
  }

  ghost predicate IsVersion(s: Server, d: Doc)
    requires Complete(s)
  {
    1 <= d.version <= s.doc.version && At(s, d.version) == d
  }

  /** Every version that one has can still be read from the other. */
  ghost predicate Keeps(s: Server, later: Server) {
    && Complete(s) && Complete(later) && s.doc.version <= later.doc.version
    && forall v :: 1 <= v <= s.doc.version ==> At(later, v) == At(s, v)
  }

  lemma CreatedIsComplete(title: string, body: string)
    ensures Complete(Created(title, body))
    ensures Created(title, body).doc.version == 1 && Created(title, body).doc.body == body
    ensures Unpadded(title, Created(title, body).doc.title)
  {
    BTrimIff(title, BTrim(title));
  }

  /** An update that goes through makes the next version, and only if it names no version or the current
      one; no version is ever lost or altered, neither the one it replaces nor any before. */
  lemma UpdatesKeepEveryVersion(s: Server, u: Update)
    requires Complete(s)
    ensures var (later, verdict) := DocumentUpdate(s, u);
            && Keeps(s, later)
            && (verdict.Updated? <==> !s.archived && (u.version == None || u.version == Some(s.doc.version)))
            && (verdict.Updated? ==>
                  && later.doc.version == s.doc.version + 1
                  && later.doc.body == (if u.body.Some? then u.body.value else s.doc.body)
                  && (if u.title == None then later.doc.title == s.doc.title
                      else Unpadded(u.title.value, later.doc.title)))
            && (!verdict.Updated? ==> later == s && verdict == if s.archived then NotFound else Stale)
  {
    if u.title.Some? { BTrimIff(u.title.value, BTrim(u.title.value)); }
  }

  lemma KeepsIsVersion(s: Server, later: Server, d: Doc)
    requires Keeps(s, later) && IsVersion(s, d)
    ensures IsVersion(later, d)
  {}

  // ------------------------------------------------------------- two updates at once

  /** The function reads the document first, without a lock, and decides by what it has read. */
  function Decide(read: Server, u: Update): Verdict {
    DocumentUpdate(read, u).1
  }

  /** Then it writes: the snapshot of what it has read, unless that version has one, and the next version
      of what is there by now. */
  function Write(s: Server, read: Doc, u: Update): Server {
    var snapshots := if read.version in s.snapshots then s.snapshots else s.snapshots[read.version := read];
    var title := if u.title.Some? then BTrim(u.title.value) else s.doc.title;
    var body := if u.body.Some? then u.body.value else s.doc.body;
    Server(Doc(s.doc.version + 1, title, body), s.archived, snapshots)
  }

  /** Read and write without anything in between are one update. */
  lemma WriteAtOnce(s: Server, u: Update)
    ensures Decide(s, u).Updated? ==> Write(s, s.doc, u) == DocumentUpdate(s, u).0
  {}

  /** Between the two, others may write. No version is lost if and only if nobody has. */
  lemma RaceLosesIff(s: Server, read: Doc, u: Update)
    requires Complete(s) && IsVersion(s, read)
    ensures Keeps(s, Write(s, read, u)) <==> s.doc.version == read.version
    ensures var later := Write(s, read, u).doc;
            && later.version == s.doc.version + 1
            && later.body == (if u.body.Some? then u.body.value else s.doc.body)
            && (if u.title == None then later.title == s.doc.title else Unpadded(u.title.value, later.title))
  {
    if u.title.Some? { BTrimIff(u.title.value, BTrim(u.title.value)); }
    if s.doc.version != read.version {
      assert read.version in s.snapshots && Write(s, read, u).snapshots == s.snapshots;
    }
  }

  /** Two updates that name the same version both go through, and the first one's text is gone. */
  lemma RaceLoses(title: string)
    ensures var s := DocumentUpdate(Created(title, "one"), Update(None, Some("two"), None)).0;
            var mine, theirs := Update(None, Some("mine"), Some(2)), Update(None, Some("theirs"), Some(2));
            var between := Write(s, s.doc, theirs);
            && Keeps(s, between) && Decide(s, mine).Updated? && Decide(s, theirs).Updated?
            && At(between, 3).body == "theirs" && !Keeps(between, Write(between, s.doc, mine))
  {
    CreatedIsComplete(title, "one");
    var s := DocumentUpdate(Created(title, "one"), Update(None, Some("two"), None)).0;
    var theirs, mine := Update(None, Some("theirs"), Some(2)), Update(None, Some("mine"), Some(2));
    UpdatesKeepEveryVersion(Created(title, "one"), Update(None, Some("two"), None));
    RaceLosesIff(s, s.doc, theirs);
    var between := Write(s, s.doc, theirs);
    assert IsVersion(between, s.doc);
    RaceLosesIff(between, s.doc, mine);
  }

}
