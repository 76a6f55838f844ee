/** The state that internal/handlers/auth.go and web/src/lib/api.ts change: the table of refresh tokens,
    and the module variables of the browser's session. */
module SessionObjects {
  import opened Wrappers
  import Sets
  import S = Sessions
  import A = ApiClient

  /** The rows of all other tokens are as they were. */
  ghost predicate SameBut(before: map<S.Secret, S.Row>, after: map<S.Secret, S.Row>, secret: S.Secret) {
    forall s :: s != secret ==> (s in after <==> s in before) && (s in before ==> after[s] == before[s])
  }

  /** From now on the token is worth nothing. */
  ghost predicate Dead(t: S.Table, secret: S.Secret) { forall at :: !S.Redeemable(t, secret, at) }

  /** The token can be redeemed until it expires, and only while its user is active. */
  ghost predicate Works(t: S.Table, secret: S.Secret, user: S.User, now: S.Time) {
    && secret in t.rows && t.rows[secret].user == user
    && forall at :: S.Redeemable(t, secret, at) <==> at < now + 2_592_000 && user in t.active
  }

  lemma RefreshIsGood(b: S.Book, cookie: S.Secret, secret: S.Secret, now: S.Time)
    requires S.Good(b) && S.Redeemable(b.table, cookie, now)
    ensures var mid := S.Step(b, S.Refresh(cookie, now));
            && S.Good(S.Step(mid, S.Issue(cookie, secret, now))) && S.Good(S.Step(mid, S.IssueFails(cookie)))
            && cookie in b.login && mid.table == S.Redeem(b.table, cookie, now).0
    ensures var failed := S.Step(S.Step(b, S.Refresh(cookie, now)), S.IssueFails(cookie));
            failed.table == S.Redeem(b.table, cookie, now).0 && failed.passwords == b.passwords
    ensures var issued := S.Step(S.Step(b, S.Refresh(cookie, now)), S.Issue(cookie, secret, now));
            secret !in b.table.rows ==>
              && issued.passwords == b.passwords
              && issued.table == S.Insert(S.Redeem(b.table, cookie, now).0, secret, b.table.rows[cookie].user, now)
              && cookie in b.login && issued.login == b.login[secret := b.login[cookie]]
  {
    var mid := S.Step(b, S.Refresh(cookie, now));
    S.StepIsGood(b, S.Refresh(cookie, now));
    S.StepIsGood(mid, S.Issue(cookie, secret, now));
    S.StepIsGood(mid, S.IssueFails(cookie));
  }

  lemma Rotated(t: S.Table, cookie: S.Secret, secret: S.Secret, now: S.Time)
    requires S.Redeemable(t, cookie, now)
    ensures var redeemed := S.Redeem(t, cookie, now).0; Dead(redeemed, cookie) && SameBut(t.rows, redeemed.rows, cookie)
    ensures var after := S.Insert(S.Redeem(t, cookie, now).0, secret, t.rows[cookie].user, now);
            secret !in t.rows ==>
              && Dead(after, cookie) && Works(after, secret, t.rows[cookie].user, now)
              && SameBut(t.rows[secret := after.rows[secret]], after.rows, cookie)
  {}

  /** The table refresh_token, and what app_user has of its users. */
  class RefreshTokens {
    var rows: map<S.Secret, S.Row>
    var active: set<S.User>
    /** How often each password has been changed: it stands for the password. */
    var passwords: map<S.User, S.Password>

    /** What has happened to the tokens. */
    ghost var book: S.Book

    function Table(): S.Table
      reads this
    {
      S.Table(rows, active)
    }

    /** One live token per login at most, and each token exchanged at most once. */
    ghost predicate Valid()
      reads this
    {
      S.Good(book) && book.table == Table() && book.passwords == passwords
    }

    constructor ()
      ensures Valid() && book == S.EMPTY
    {
      rows, active, passwords, book := map[], {}, map[], S.EMPTY;
    }

    /** The new token works; an insert that meets the hash of another token fails, and changes nothing. */
    method IssueSession(user: S.User, secret: S.Secret, now: S.Time) returns (ok: bool)
      modifies this`rows
      ensures ok <==> secret !in old(rows)
      ensures ok ==> Works(Table(), secret, user, now) && SameBut(old(rows), rows, secret)
      ensures Table() == if ok then S.Insert(old(Table()), secret, user, now) else old(Table())
    {
      ok := secret !in rows;
      if ok { rows := rows[secret := S.Row(user, now + S.REFRESH_TOKEN_TTL, false)]; }
    }

    /** user_login, for a request that has the password right: it goes on only for an active user, and then
        with the password of this moment. */
    method UserLogin(ghost attempt: S.Attempt, user: S.User) returns (found: bool)
      requires Valid() && attempt !in book.checked
      modifies this`book
      ensures Valid() && (found <==> user in active) && book == S.Step(old(book), S.CheckPassword(attempt, user))
      ensures found <==> attempt in book.checked
      ensures found ==> book.checked[attempt] == S.Checked(user, S.PasswordOf(book, user))
    {
      S.StepIsGood(book, S.CheckPassword(attempt, user));
      hide S.Good;
      found := user in active;
      book := S.Step(book, S.CheckPassword(attempt, user));
    }

    /** The second step of a login begins a line of tokens of its own, whatever has happened to the password
        since the first. */
    method Login(ghost attempt: S.Attempt, user: S.User, secret: S.Secret, now: S.Time) returns (ok: bool)
      requires Valid() && attempt in book.checked && book.checked[attempt].user == user
      modifies this
      ensures Valid() && book == S.Step(old(book), if ok then S.LogIn(attempt, secret, now) else S.LogInFails(attempt))
      ensures attempt !in book.checked && active == old(active) && passwords == old(passwords)
      ensures ok <==> secret !in old(rows)
      ensures ok ==>
                && Works(Table(), secret, user, now) && SameBut(old(rows), rows, secret) && secret in book.login
                && book.login[secret].password == old(book.checked)[attempt].password
                && forall s <- book.login :: s != secret ==> book.login[s] != book.login[secret]
      ensures !ok ==> Table() == old(Table())
    {
      S.StepIsGood(book, S.LogIn(attempt, secret, now));
      S.StepIsGood(book, S.LogInFails(attempt));
      hide S.OneHead, S.OpenedOnce;
      ok := IssueSession(user, secret, now);
      book := S.Step(book, if ok then S.LogIn(attempt, secret, now) else S.LogInFails(attempt));
    }

    /** Refresh: the token presented is spent, whether or not a successor can be issued; the successor works,
        for the same user and login. A token of no use changes nothing. */
    method Refresh(cookie: Option<S.Secret>, secret: S.Secret, now: S.Time) returns (next: Option<S.Secret>)
      requires Valid()
      modifies this
      ensures Valid()
      ensures next.Some? <==> cookie.Some? && old(S.Redeemable(Table(), cookie.value, now)) && secret !in old(rows)
      ensures cookie.Some? && old(S.Redeemable(Table(), cookie.value, now)) ==>
                && Dead(Table(), cookie.value) && cookie.value in old(rows) && (next.Some? ==> secret in rows)
                && SameBut(if next.Some? then old(rows)[secret := rows[secret]] else old(rows), rows, cookie.value)
      ensures next.Some? ==>
                && next == Some(secret) && Works(Table(), secret, old(rows)[cookie.value].user, now)
                && secret in book.login && cookie.value in old(book.login)
                && book.login == old(book.login)[secret := old(book.login)[cookie.value]]
      ensures !(cookie.Some? && old(S.Redeemable(Table(), cookie.value, now))) ==>
          Table() == old(Table()) && book == old(book)
    {
      hide S.Good, S.Step, Dead, SameBut, Works;
      next := None;
      if cookie == None { return; }
      var s := cookie.value;
      if s !in rows || rows[s].revoked || rows[s].expires <= now || rows[s].user !in active { return; }
      RefreshIsGood(book, s, secret, now);
      Rotated(Table(), s, secret, now);
      rows := rows[s := rows[s].(revoked := true)];
      book := S.Step(book, S.Event.Refresh(s, now));
      var ok := IssueSession(rows[s].user, secret, now);
      book := S.Step(book, if ok then S.Issue(s, secret, now) else S.IssueFails(s));
      if ok { next := Some(secret); }
    }

    /** The token presented is worth nothing from now on, and every other one what it was. */
    method Logout(cookie: Option<S.Secret>)
      requires Valid()
      modifies this
      ensures Valid() && active == old(active)
      ensures cookie.Some? ==> Dead(Table(), cookie.value) && SameBut(old(rows), rows, cookie.value)
      ensures cookie == None ==> Table() == old(Table())
      ensures book == if cookie == None then old(book) else S.Step(old(book), S.LogOut(cookie.value))
    {
      if cookie == None { return; }
      S.StepIsGood(book, S.LogOut(cookie.value));
      hide S.Good;
      if cookie.value in rows { rows := rows[cookie.value := rows[cookie.value].(revoked := true)]; }
      book := S.Step(book, S.LogOut(cookie.value));
    }

    /** The first statement of a change of password, for a request that has the old one right: from now on all
        tokens of the user are outdated. */
    method SetPassword(user: S.User)
      requires Valid()
      modifies this`passwords, this`book
      ensures Valid() && book == S.Step(old(book), S.ChangePassword(user))
      ensures forall s <- rows :: rows[s].user == user ==> S.Outdated(book, user, S.PasswordOf(book, user), s)
      ensures forall other :: other != user ==> S.PasswordOf(book, other) == S.PasswordOf(old(book), other)
    {
      S.StepIsGood(book, S.ChangePassword(user));
      forall s <- rows | rows[s].user == user
        ensures var next := S.Step(book, S.ChangePassword(user)); S.Outdated(next, user, S.PasswordOf(next, user), s)
      {
        S.ChangeOutdatesAll(book, user, s);
      }
      hide S.Good;
      book := S.Step(book, S.ChangePassword(user));
      passwords := passwords[user := (if user in passwords then passwords[user] else 0) + 1];
    }

    /** The second statement, and whether it goes through: a session with an earlier password outlives it if
        and only if a refresh or a login of such a session is under way, or it fails and a token is live. */
    method RevokeSessions(user: S.User, ok: bool, ghost now: S.Time)
      requires Valid()
      modifies this
      ensures Valid() && active == old(active) && passwords == old(passwords) && rows.Keys == old(rows.Keys)
      ensures forall s <- rows :: rows[s] == if ok && old(rows)[s].user == user then old(rows)[s].(revoked := true)
          else old(rows)[s]
      ensures var password := if user in passwords then passwords[user] else 0;
              S.Survives(book, user, password, now) <==>
                !S.NoneUnderWay(old(book), user, password) || (!ok && !S.NoneLive(old(book), user, password, now))
    {
      S.StepIsGood(book, S.RevokeSessions(user, ok));
      S.PasswordEndsSessionsIff(book, user, ok, now);
      hide S.Good, S.Survives, S.NoneUnderWay, S.NoneLive;
      if ok {
        rows := map s | s in rows :: if rows[s].user == user then rows[s].(revoked := true) else rows[s];
      }
      book := S.Step(book, S.RevokeSessions(user, ok));
    }
  }

  lemma ResolvedIsOrderly(c: A.Client, access: Option<A.Access>)
    requires A.Orderly(c)
    ensures var next := A.Resolve(c, access);
            && A.Orderly(next)
            && forall id <- next.requests :: next.requests[id].sends <= 2 && next.requests[id].stage != A.Waiting
  {}

  lemma AllResumed(c: A.Client, access: Option<A.Access>, calls: map<A.RequestId, A.Call>)
    requires calls.Keys == c.requests.Keys && forall id <- c.requests :: calls[id] == A.Resumed(c.requests[id], access)
    ensures calls == A.Resolve(c, access).requests
  {
    var want := A.Resolve(c, access).requests;
    assert forall id: A.RequestId :: id in calls <==> id in c.requests;
    forall id: A.RequestId | id in calls ensures id in want && calls[id] == want[id] {
      assert id in c.requests;
    }
    assert forall id: A.RequestId :: id in want <==> id in calls;
  }

  class Session {
    var accessToken: Option<A.Access>
    var cookie: Option<S.Secret>
    var refreshPromise: Option<A.Refreshing>
    var calls: map<A.RequestId, A.Call>

    function State(): A.Client
      reads this
    {
      A.Client(accessToken, cookie, refreshPromise, calls)
    }

    /** A request that waits has a refresh to wait for, and none has gone out more than twice. */
    ghost predicate Valid()
      reads this
    {
      A.Orderly(State()) && forall id <- calls :: calls[id].sends <= 2
    }

    constructor ()
      ensures Valid() && State() == A.NEW_CLIENT
    {
      accessToken, cookie, refreshPromise, calls := None, None, None, map[];
    }

    /** One refresh at a time: it joins the one on its way, or presents the cookie. */
    method Refresh()
      modifies this`refreshPromise
      ensures refreshPromise == if old(refreshPromise).Some? then old(refreshPromise)
          else Some(A.Refreshing(cookie, A.Asked))
    {
      if refreshPromise == None { refreshPromise := Some(A.Refreshing(cookie, A.Asked)); }
    }

    method Send(id: A.RequestId, auth: bool)
      requires Valid() && id !in calls
      modifies this`calls
      ensures Valid() && calls == old(calls)[id := A.Call(auth, false, A.Sent(accessToken), 1)]
      ensures State() == A.Send(old(State()), id, auth)
    {
      calls := calls[id := A.Call(auth, false, A.Sent(accessToken), 1)];
    }

    /** A request that is refused for its token waits, for the refresh that others wait for if there is one;
        any other answer ends it, and so does a second refusal. No other request is touched. */
    method OnResponse(id: A.RequestId, unauthorized: bool)
      requires Valid() && id in calls && calls[id].stage.Sent?
      modifies this
      ensures Valid() && calls.Keys == old(calls.Keys) && accessToken == old(accessToken) && cookie == old(cookie)
      ensures forall other <- calls :: other != id ==> calls[other] == old(calls)[other]
      ensures calls[id].stage == if unauthorized && old(calls)[id].sends == 1 && !calls[id].auth then A.Waiting
          else A.Over
      ensures old(refreshPromise).Some? || calls[id].stage.Over? ==> refreshPromise == old(refreshPromise)
      ensures old(refreshPromise) == None && calls[id].stage.Waiting? ==>
          refreshPromise == Some(A.Refreshing(cookie, A.Asked))
      ensures State() == A.OnResponse(old(State()), id, unauthorized)
    {
      var r := calls[id];
      if unauthorized && !r.retried && !r.auth {
        calls := calls[id := r.(stage := A.Waiting)];
        Refresh();
      } else {
        calls := calls[id := r.(stage := A.Over)];
      }
    }

    /** The promise resolves: the waiters go on one by one, after it has been dropped, and none is left. */
    method Resolve(access: Option<A.Access>)
      requires Valid()
      modifies this
      ensures Valid() && State() == A.Resolve(old(State()), access)
      ensures forall id <- calls :: calls[id].stage != A.Waiting
    {
      ResolvedIsOrderly(State(), access);
      hide A.Orderly, A.Resumed;
      accessToken := access;
      refreshPromise := None;
      var todo := calls.Keys;
      ghost var before := calls;
      while todo != {}
        invariant todo <= before.Keys && calls.Keys == before.Keys
        invariant accessToken == access && refreshPromise == None && cookie == old(cookie)
        invariant forall id <- before :: calls[id] == if id in todo then before[id] else A.Resumed(before[id], access)
        decreases |todo|
      {
        ghost var one := Sets.Member(todo);
        var id :| id in todo;
        calls := calls[id := A.Resumed(calls[id], access)];
        todo := todo - {id};
      }
      AllResumed(old(State()), access, calls);
    }
  }
}
