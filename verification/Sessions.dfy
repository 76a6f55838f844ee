/** internal/handlers/auth.go: refresh tokens, each of which is exchanged once for the next. */
module Sessions {
  import opened Wrappers
  import Sets

  type User = int
  type Time = int

  /** How often a user's password has been changed so far. */
  type Password = nat

  /** A session from its login on: which login it was, and with which password. */
  datatype Login = Login(id: nat, password: Password)

  /** One call of the login handler. */
  type Attempt = int

  /** A login whose password was accepted, and whose token is still to be issued. */
  datatype Checked = Checked(user: User, password: Password)

  /** A refresh token. Tokens are random, and the table holds their hashes: two tokens are told apart. */
  type Secret = int

  datatype Row = Row(user: User, expires: Time, revoked: bool)

  datatype Table = Table(rows: map<Secret, Row>, active: set<User>)

  const REFRESH_TOKEN_TTL := 30 * 24 * 60 * 60

  predicate Redeemable(t: Table, s: Secret, now: Time) {
    s in t.rows && !t.rows[s].revoked && t.rows[s].expires > now && t.rows[s].user in t.active
  }

  /** The one UPDATE of a refresh: revokes a token that can be redeemed and names its user. */
  function Redeem(t: Table, s: Secret, now: Time): (Table, Option<User>) {
    if Redeemable(t, s, now) then (t.(rows := t.rows[s := t.rows[s].(revoked := true)]), Some(t.rows[s].user))
        else (t, None)
  }

  /** issueSession */
  function Insert(t: Table, s: Secret, user: User, now: Time): Table {
    t.(rows := t.rows[s := Row(user, now + REFRESH_TOKEN_TTL, false)])
  }

  /** Logout */
  function Revoke(t: Table, s: Secret): Table {
    if s in t.rows then t.(rows := t.rows[s := t.rows[s].(revoked := true)]) else t
  }

  /** The second statement of a changed password: every token of its user is revoked. */
  function RevokeAll(t: Table, user: User): Table {
    t.(rows := map s | s in t.rows :: if t.rows[s].user == user then t.rows[s].(revoked := true) else t.rows[s])
  }

  // --------------------------------------------------------------------------- steps

  /** Everything here is two steps. A refresh redeems a token, then issues a new one or fails. A login has
      the password checked, then issues a token or fails. A change of password sets the password, and then
      revokes the tokens; an error of that is ignored. */
  datatype Event =
    | CheckPassword(attempt: Attempt, user: User)
    | LogIn(attempt: Attempt, issued: Secret, now: Time)
    | LogInFails(attempt: Attempt)
    | Refresh(secret: Secret, now: Time)
    | Issue(secret: Secret, issued: Secret, now: Time)
    | IssueFails(secret: Secret)
    | LogOut(secret: Secret)
    | ChangePassword(user: User)
    | RevokeSessions(user: User, ok: bool)
    | SetActive(user: User, active: bool)

  /** The tables, and what has happened to them: the logins that have been checked, the login that each token
      goes back to, the tokens redeemed, those whose successor is still to be issued, and each successor
      issued with the token it was for. */
  datatype Book = Book(table: Table, passwords: map<User, Password>, checked: map<Attempt, Checked>,
                       login: map<Secret, Login>, logins: nat,
                       redeemed: set<Secret>, issuing: set<Secret>, exchanged: seq<(Secret, Secret)>)

  const EMPTY := Book(Table(map[], {}), map[], map[], map[], 0, {}, {}, [])

  function PasswordOf(b: Book, user: User): Password {
    if user in b.passwords then b.passwords[user] else 0
  }

  function Step(b: Book, e: Event): Book {
    match e
    case CheckPassword(attempt, user) =>
      if attempt in b.checked || user !in b.table.active then b
      else b.(checked := b.checked[attempt := Checked(user, PasswordOf(b, user))])
    case LogIn(attempt, issued, now) =>
      if attempt !in b.checked || issued in b.table.rows then b
      else
        b.(table := Insert(b.table, issued, b.checked[attempt].user, now), checked := b.checked - {attempt},
           login := b.login[issued := Login(b.logins, b.checked[attempt].password)], logins := b.logins + 1)
    case LogInFails(attempt) => b.(checked := b.checked - {attempt})
    case Refresh(s, now) =>
      var (table, user) := Redeem(b.table, s, now);
      if user == None then b else b.(table := table, redeemed := b.redeemed + {s}, issuing := b.issuing + {s})
    case Issue(s, issued, now) =>
      if s !in b.issuing || s !in b.login || s !in b.table.rows || issued in b.table.rows then b
      else b.(table := Insert(b.table, issued, b.table.rows[s].user, now), login := b.login[issued := b.login[s]],
              issuing := b.issuing - {s}, exchanged := b.exchanged + [(s, issued)])
    case IssueFails(s) => b.(issuing := b.issuing - {s})
    case LogOut(s) => b.(table := Revoke(b.table, s))
    case ChangePassword(user) => b.(passwords := b.passwords[user := PasswordOf(b, user) + 1])
    case RevokeSessions(user, ok) => if ok then b.(table := RevokeAll(b.table, user)) else b
    case SetActive(user, on) =>
      var active := if on then b.table.active + {user} else b.table.active - {user};
      b.(table := b.table.(active := active))
  }

  // ----------------------------------------------------------------------- invariants

  ghost predicate Unrevoked(b: Book, s: Secret) { s in b.table.rows && !b.table.rows[s].revoked }

  /** Every token goes back to a login, and a redeemed one is revoked. */
  ghost predicate Kept(b: Book) {
    && b.login.Keys == b.table.rows.Keys
    && (forall s <- b.login :: b.login[s].id < b.logins)
    && (forall s <- b.redeemed :: s in b.table.rows && b.table.rows[s].revoked)
    && b.issuing <= b.redeemed
    && (forall o <- b.exchanged ::
          o.0 in b.redeemed && o.0 !in b.issuing && o.1 in b.login && b.login[o.1] == b.login[o.0])
  }

  /** Of the tokens that go back to one login, one at most is live or about to be issued. */
  ghost predicate Head(b: Book, s: Secret) { Unrevoked(b, s) || s in b.issuing }

  ghost predicate OneHead(b: Book)
    requires Kept(b)
  {
    forall s, u | Head(b, s) && Head(b, u) && b.login[s] == b.login[u] :: s == u
  }

  /** No token has opened two sessions, and no session was opened with two tokens. */
  ghost predicate OpenedOnce(b: Book) {
    forall i, j :: 0 <= i < j < |b.exchanged| ==>
        b.exchanged[i].0 != b.exchanged[j].0 && b.exchanged[i].1 != b.exchanged[j].1
  }

  /** No session is with a password that has yet to be set. */
  ghost predicate Dated(b: Book) {
    && (forall s <- b.login :: s in b.table.rows ==> b.login[s].password <= PasswordOf(b, b.table.rows[s].user))
    && (forall c <- b.checked :: b.checked[c].password <= PasswordOf(b, b.checked[c].user))
  }

  ghost predicate Good(b: Book) { Kept(b) && OneHead(b) && OpenedOnce(b) && Dated(b) }

  lemma StepIsKept(b: Book, e: Event)
    requires Kept(b)
    ensures Kept(Step(b, e))
  {}

  lemma StepIsDated(b: Book, e: Event)
    requires Kept(b) && Dated(b)
    ensures Dated(Step(b, e))
  {}

  /** A head of the next state is one of this state, or the successor of one that no longer is. */
  lemma HeadsAfter(b: Book, e: Event, s: Secret)
    requires Good(b) && Kept(Step(b, e)) && Head(Step(b, e), s)
    ensures Head(b, s) || (e.LogIn? && s == e.issued)
        || (e.Issue? && s == e.issued && e.secret in b.issuing && e.secret !in Step(b, e).issuing)
  {}

  lemma StepIsGood(b: Book, e: Event)
    requires Good(b)
    ensures Good(Step(b, e))
  {
    StepIsKept(b, e);
    StepIsDated(b, e);
    var next := Step(b, e);
    forall s, u | Head(next, s) && Head(next, u) && next.login[s] == next.login[u] ensures s == u {
      HeadsAfter(b, e, s);
      HeadsAfter(b, e, u);
    }
    assert OpenedOnce(next) by {
      if e.Issue? && next.exchanged != b.exchanged {
        forall i | 0 <= i < |b.exchanged| ensures b.exchanged[i].0 != e.secret && b.exchanged[i].1 != e.issued {
          assert b.exchanged[i] in b.exchanged;
        }
      }
    }
  }

  function End(b: Book, events: seq<Event>): Book
    decreases |events|
  {
    if events == [] then b else End(Step(b, events[0]), events[1..])
  }

  lemma {:induction false} RunIsGood(b: Book, events: seq<Event>)
    requires Good(b)
    ensures Good(End(b, events))
    decreases |events|
  {
    if events != [] {
      StepIsGood(b, events[0]);
      RunIsGood(Step(b, events[0]), events[1..]);
    }
  }

  /** Whatever is presented, in whatever order and by whomever, and however often issuing fails: each
      token opens one further session at most, and each login has one live token at most. */
  lemma OneLiveTokenPerLogin(events: seq<Event>)
    ensures var b := End(EMPTY, events);
            && OpenedOnce(b) && b.login.Keys == b.table.rows.Keys
            && forall s, u | Unrevoked(b, s) && Unrevoked(b, u) && b.login[s] == b.login[u] :: s == u
  {
    RunIsGood(EMPTY, events);
    var b := End(EMPTY, events);
    forall s, u | Unrevoked(b, s) && Unrevoked(b, u) && b.login[s] == b.login[u] ensures s == u {
      assert Head(b, s) && Head(b, u);
    }
  }

  /** A redeemed token never works again, and a presented token that works opens a session at once or
      leaves its login without a live token. */
  lemma RedeemedIsSpent(b: Book, s: Secret, now: Time)
    requires Good(b)
    ensures s in b.redeemed ==> Step(b, Refresh(s, now)) == b
    ensures Redeemable(b.table, s, now) ==>
              var next := Step(b, Refresh(s, now));
              s in next.redeemed && forall u | Unrevoked(next, u) :: u in next.login && next.login[u] != b.login[s]
  {
    StepIsGood(b, Refresh(s, now));
    var next := Step(b, Refresh(s, now));
    if Redeemable(b.table, s, now) {
      assert Head(next, s);
      forall u | Unrevoked(next, u) ensures u in next.login && next.login[u] != b.login[s] {
        assert Head(next, u);
      }
    }
  }

  /** What a successor is worth: it is live, goes back to the same login and user, and can be redeemed
      until it expires, as long as its user is active. */
  lemma IssuedWorks(b: Book, s: Secret, issued: Secret, now: Time, later: Time)
    requires Good(b) && s in b.issuing && issued !in b.table.rows
    ensures var next := Step(b, Issue(s, issued, now));
            && Unrevoked(next, issued) && issued in next.login && s in b.login && next.login[issued] == b.login[s]
            && s in b.table.rows && next.table.rows[issued].user == b.table.rows[s].user
            && (Redeemable(next.table, issued, later) <==>
                  later < now + 2_592_000 && b.table.rows[s].user in b.table.active)
  {
    assert s in b.redeemed;
  }

  // ------------------------------------------------------------------ changed passwords

  /** A token that goes back to a login of the user with a password before this one. */
  ghost predicate Outdated(b: Book, user: User, password: Password, s: Secret) {
    s in b.table.rows && b.table.rows[s].user == user && s in b.login && b.login[s].password < password
  }

  /** No refresh and no login with an earlier password is between its two steps. */
  ghost predicate NoneUnderWay(b: Book, user: User, password: Password) {
    && (forall t <- b.issuing :: !Outdated(b, user, password, t))
    && (forall c <- b.checked :: b.checked[c].user == user ==> b.checked[c].password >= password)
  }

  /** No token from before the password can be redeemed from now on. */
  ghost predicate NoneLive(b: Book, user: User, password: Password, now: Time) {
    forall t <- b.table.rows :: Outdated(b, user, password, t) ==>
        b.table.rows[t].revoked || b.table.rows[t].expires <= now
  }

  ghost predicate SignedOut(b: Book, user: User, password: Password, now: Time) {
    Kept(b) && password <= PasswordOf(b, user) && NoneUnderWay(b, user, password) && NoneLive(b, user, password, now)
  }

  /** When the password has just been changed, all tokens of its user are outdated. */
  lemma ChangeOutdatesAll(b: Book, user: User, s: Secret)
    requires Good(b) && s in b.table.rows && b.table.rows[s].user == user
    ensures var next := Step(b, ChangePassword(user)); Outdated(next, user, PasswordOf(next, user), s)
  {}

  /** Clocks do not run backwards. */
  predicate NotBefore(e: Event, now: Time) {
    match e
    case LogIn(_, _, at) => now <= at
    case Refresh(_, at) => now <= at
    case Issue(_, _, at) => now <= at
    case _ => true
  }

  /** A session from before the password outlives this state: some token of it works at some later time. */
  ghost predicate Survives(b: Book, user: User, password: Password, now: Time) {
    exists events, s, at ::
      && now <= at && (forall e <- events :: NotBefore(e, now))
      && Redeemable(End(b, events).table, s, at) && Outdated(End(b, events), user, password, s)
  }

  lemma StepKeepsNoneUnderWay(b: Book, e: Event, user: User, password: Password, now: Time)
    requires SignedOut(b, user, password, now) && NotBefore(e, now)
    ensures NoneUnderWay(Step(b, e), user, password)
  {}

  lemma StepKeepsNoneLive(b: Book, e: Event, user: User, password: Password, now: Time)
    requires SignedOut(b, user, password, now) && NotBefore(e, now)
    ensures NoneLive(Step(b, e), user, password, now)
  {}

  lemma {:induction false} RunStaysSignedOut(b: Book, events: seq<Event>, user: User, password: Password, now: Time)
    requires SignedOut(b, user, password, now) && forall e <- events :: NotBefore(e, now)
    ensures SignedOut(End(b, events), user, password, now)
    decreases |events|
  {
    if events != [] {
      assert events[0] in events && forall e <- events[1..] :: e in events;
      StepIsKept(b, events[0]);
      StepKeepsNoneUnderWay(b, events[0], user, password, now);
      StepKeepsNoneLive(b, events[0], user, password, now);
      RunStaysSignedOut(Step(b, events[0]), events[1..], user, password, now);
    }
  }

  lemma {:induction false} Unused(secrets: set<Secret>) returns (n: Secret)
    ensures forall s <- secrets :: s < n
  {
    n := 0;
    if secrets != {} {
      var one := Sets.Member(secrets);
      var m := Unused(secrets - {one});
      n := if one < m then m else one + 1;
      forall s <- secrets ensures s < n {
        if s != one { assert s in secrets - {one}; }
      }
    }
  }

  lemma EndOfOne(b: Book, e: Event)
    ensures End(b, [e]) == Step(b, e)
  {
    assert [e][1..] == [];
  }

  lemma EndOfTwo(b: Book, e: Event, f: Event)
    ensures End(b, [e, f]) == Step(Step(b, e), f)
  {
    assert [e, f][1..] == [f];
    EndOfOne(Step(b, e), f);
  }

  lemma LiveTokenSurvives(b: Book, user: User, password: Password, now: Time, t: Secret)
    requires Outdated(b, user, password, t) && !b.table.rows[t].revoked && b.table.rows[t].expires > now
    ensures Survives(b, user, password, now)
  {
    var events := [SetActive(user, true)];
    EndOfOne(b, SetActive(user, true));
    assert forall e <- events :: NotBefore(e, now);
    assert Redeemable(End(b, events).table, t, now) && Outdated(End(b, events), user, password, t);
  }

  lemma IssuingSurvives(b: Book, user: User, password: Password, now: Time, t: Secret)
    requires Kept(b) && t in b.issuing && Outdated(b, user, password, t)
    ensures Survives(b, user, password, now)
  {
    var issued := Unused(b.table.rows.Keys);
    var events := [SetActive(user, true), Issue(t, issued, now)];
    EndOfTwo(b, SetActive(user, true), Issue(t, issued, now));
    assert forall e <- events :: NotBefore(e, now);
    assert Redeemable(End(b, events).table, issued, now) && Outdated(End(b, events), user, password, issued);
  }

  lemma CheckedSurvives(b: Book, user: User, password: Password, now: Time, attempt: Attempt)
    requires attempt in b.checked && b.checked[attempt].user == user && b.checked[attempt].password < password
    ensures Survives(b, user, password, now)
  {
    var issued := Unused(b.table.rows.Keys);
    var events := [SetActive(user, true), LogIn(attempt, issued, now)];
    EndOfTwo(b, SetActive(user, true), LogIn(attempt, issued, now));
    assert forall e <- events :: NotBefore(e, now);
    assert Redeemable(End(b, events).table, issued, now) && Outdated(End(b, events), user, password, issued);
  }

  lemma SignedOutDoesNotSurvive(b: Book, user: User, password: Password, now: Time)
    requires SignedOut(b, user, password, now)
    ensures !Survives(b, user, password, now)
  {
    forall events, s, at | now <= at && (forall e <- events :: NotBefore(e, now))
      ensures !(Redeemable(End(b, events).table, s, at) && Outdated(End(b, events), user, password, s))
    {
      RunStaysSignedOut(b, events, user, password, now);
    }
  }

  lemma SurvivesIff(b: Book, user: User, password: Password, now: Time)
    requires Kept(b) && password <= PasswordOf(b, user)
    ensures Survives(b, user, password, now) <==> !SignedOut(b, user, password, now)
  {
    if SignedOut(b, user, password, now) {
      SignedOutDoesNotSurvive(b, user, password, now);
    } else if t :| t in b.issuing && Outdated(b, user, password, t) {
      IssuingSurvives(b, user, password, now, t);
    } else if c :| c in b.checked && b.checked[c].user == user && b.checked[c].password < password {
      CheckedSurvives(b, user, password, now, c);
    } else {
      var t :| t in b.table.rows && Outdated(b, user, password, t) && !b.table.rows[t].revoked
          && b.table.rows[t].expires > now;
      LiveTokenSurvives(b, user, password, now, t);
    }
  }

  /** The second step of a change of password ends every session that goes back to an earlier password, for
      good, if and only if no refresh and no login of such a session is between its two steps, and the tokens
      are revoked or none is live. */
  lemma PasswordEndsSessionsIff(b: Book, user: User, ok: bool, now: Time)
    requires Good(b)
    ensures var password := PasswordOf(b, user);
            !Survives(Step(b, RevokeSessions(user, ok)), user, password, now) <==>
              NoneUnderWay(b, user, password) && (ok || NoneLive(b, user, password, now))
  {
    var next := Step(b, RevokeSessions(user, ok));
    StepIsKept(b, RevokeSessions(user, ok));
    SurvivesIff(next, user, PasswordOf(b, user), now);
    assert forall t :: Outdated(next, user, PasswordOf(b, user), t) <==> Outdated(b, user, PasswordOf(b, user), t);
  }

  /** A user who has logged in, and then changes the password. */
  function Changing(): Book {
    var active := Step(EMPTY, SetActive(1, true));
    var logged := Step(Step(active, CheckPassword(7, 1)), LogIn(7, 100, 0));
    Step(logged, ChangePassword(1))
  }

  lemma ChangingIs()
    ensures Good(Changing()) && PasswordOf(Changing(), 1) == 1 && 1 in Changing().table.active
    ensures Changing().table.rows == map[100 := Row(1, REFRESH_TOKEN_TTL, false)]
    ensures Changing().login == map[100 := Login(0, 0)] && Changing().checked == map[] && Changing().issuing == {}
  {
    var run := [SetActive(1, true), CheckPassword(7, 1), LogIn(7, 100, 0), ChangePassword(1)];
    assert run[1..] == [CheckPassword(7, 1), LogIn(7, 100, 0), ChangePassword(1)];
    assert run[1..][1..] == [LogIn(7, 100, 0), ChangePassword(1)];
    EndOfTwo(Step(Step(EMPTY, run[0]), run[1]), run[2], run[3]);
    assert End(EMPTY, run) == Changing();
    RunIsGood(EMPTY, run);
  }

  /** It does happen that a session outlives the change: when the revoke fails, ... */
  lemma FailedRevokeLeavesASession()
    ensures Good(Changing()) && Survives(Step(Changing(), RevokeSessions(1, false)), 1, 1, 2)
  {
    ChangingIs();
    assert Outdated(Changing(), 1, 1, 100);
    PasswordEndsSessionsIff(Changing(), 1, false, 2);
  }

  /** ... when a refresh has redeemed its token before the revoke and issues the next one after it, ... */
  lemma RefreshOutlivesThePassword()
    ensures var b := Step(Changing(), Refresh(100, 1));
            Good(b) && Survives(Step(b, RevokeSessions(1, true)), 1, 1, 2)
  {
    ChangingIs();
    var b := Step(Changing(), Refresh(100, 1));
    StepIsGood(Changing(), Refresh(100, 1));
    assert 100 in b.issuing && Outdated(b, 1, 1, 100);
    PasswordEndsSessionsIff(b, 1, true, 2);
  }

  /** ... and when a login was checked before the change, and its token is issued after the revoke. */
  lemma LoginOutlivesThePassword()
    ensures var before := Step(Step(EMPTY, SetActive(1, true)), CheckPassword(7, 1));
            var b := Step(before, ChangePassword(1));
            Good(b) && Survives(Step(b, RevokeSessions(1, true)), 1, 1, 2)
  {
    var active := Step(EMPTY, SetActive(1, true));
    var before := Step(active, CheckPassword(7, 1));
    var b := Step(before, ChangePassword(1));
    StepIsGood(EMPTY, SetActive(1, true));
    StepIsGood(active, CheckPassword(7, 1));
    StepIsGood(before, ChangePassword(1));
    assert 7 in b.checked && b.checked[7] == Checked(1, 0);
    PasswordEndsSessionsIff(b, 1, true, 2);
  }
}
