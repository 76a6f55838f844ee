/** web/src/lib/api.ts: one browser's session, whose concurrent requests share one refresh. */
module ApiClient {
  import opened Wrappers
  import opened Sessions

  type Access = int
  type RequestId = int

  /** A request is on its way with the access token of the moment, or waits for the refresh, or is over.
      `sends` counts how often it went out. */
  datatype Stage = Sent(with: Option<Access>) | Waiting | Over
  datatype Call = Call(auth: bool, retried: bool, stage: Stage, sends: nat)

  datatype Answer = Granted(access: Access, next: Secret) | Denied | Errored

  /** A refresh: the cookie it went out with, and how far the server is with it. */
  datatype Progress = Asked | Redeemed(user: User) | Answered(answer: Answer)
  datatype Refreshing = Refreshing(presented: Option<Secret>, progress: Progress)

  datatype Client = Client(access: Option<Access>, cookie: Option<Secret>, refreshing: Option<Refreshing>,
                           requests: map<RequestId, Call>)

  const NEW_CLIENT := Client(None, None, None, map[])

  /** session.refresh: joins the refresh on its way, or starts one. */
  function JoinRefresh(c: Client): Client {
    if c.refreshing.Some? then c else c.(refreshing := Some(Refreshing(c.cookie, Asked)))
  }

  function Send(c: Client, id: RequestId, auth: bool): Client {
    c.(requests := c.requests[id := Call(auth, false, Sent(c.access), 1)])
  }

  /** A request that is answered: one refused for its token waits for a new one, but only once. */
  function OnResponse(c: Client, id: RequestId, unauthorized: bool): Client {
    if id !in c.requests || !c.requests[id].stage.Sent? then c
    else
      var r := c.requests[id];
      if unauthorized && !r.retried && !r.auth then JoinRefresh(c.(requests := c.requests[id := r.(stage := Waiting)]))
      else c.(requests := c.requests[id := r.(stage := Over)])
  }

  /** A waiting request goes out again with the new token, or is over without one. */
  function Resumed(r: Call, access: Option<Access>): Call {
    if !r.stage.Waiting? then r
    else if access.Some? then r.(retried := true, stage := Sent(access), sends := r.sends + 1)
    else r.(stage := Over)
  }

  /** The shared promise resolves: the token is set, the promise is dropped, and every waiter goes on. */
  function Resolve(c: Client, access: Option<Access>): Client {
    c.(access := access, refreshing := None, requests := map id | id in c.requests :: Resumed(c.requests[id], access))
  }

  /** The answer is back; the browser takes its cookie from it. A refresh without an answer resolves too. */
  function OnRefreshed(c: Client): Client {
    if c.refreshing == None || !c.refreshing.value.progress.Answered? then c
    else
      match c.refreshing.value.progress.answer
      case Granted(access, next) => Resolve(c.(cookie := Some(next)), Some(access))
      case Denied => Resolve(c.(cookie := None), None)
      case Errored => Resolve(c, None)
  }

  function OnLost(c: Client): Client {
    if c.refreshing == None then c else Resolve(c, None)
  }

  // --------------------------------------------------------------------------- world

  /** The server and one browser. `mine` are the refresh tokens that were ever sent to this browser. */
  datatype World = World(book: Book, client: Client, mine: set<Secret>)

  const START := World(EMPTY, NEW_CLIENT, {})

  datatype Happening =
    | Begin(id: RequestId, auth: bool)
    | Response(id: RequestId, unauthorized: bool)
    | Bootstrap
    | Redeem(now: Time)
    | Grant(access: Access, secret: Secret, now: Time)
    | Fail
    | Refreshed
    | Lost
    | SignIn(attempt: Attempt, access: Access, secret: Secret, now: Time)
    | SignOut
    | Elsewhere(event: Event)

  /** Only this browser presents its tokens. What the server does after a refresh that the browser has
      given up on is work for nobody. */
  predicate Allowed(w: World, e: Event) {
    var current := if w.client.refreshing.Some? then w.client.refreshing.value.presented else None;
    match e
    case Refresh(s, _) => s !in w.mine
    case Issue(s, _, _) => current != Some(s)
    case IssueFails(s) => current != Some(s)
    case LogOut(s) => s !in w.mine
    case _ => true
  }

  /** The server's work on the refresh of this browser. */
  function OnRedeem(w: World, now: Time): World {
    if w.client.refreshing == None || w.client.refreshing.value.progress != Asked then w
    else
      var r := w.client.refreshing.value;
      if r.presented.Some? && Redeemable(w.book.table, r.presented.value, now) then
        var user := w.book.table.rows[r.presented.value].user;
        w.(book := Step(w.book, Event.Refresh(r.presented.value, now)),
           client := w.client.(refreshing := Some(r.(progress := Redeemed(user)))))
      else w.(client := w.client.(refreshing := Some(r.(progress := Answered(Denied)))))
  }

  function OnGrant(w: World, access: Access, secret: Secret, now: Time): World {
    if w.client.refreshing == None || !w.client.refreshing.value.progress.Redeemed? then w
    else
      var r := w.client.refreshing.value;
      if r.presented == None || secret in w.book.table.rows then w
      else
        w.(book := Step(w.book, Issue(r.presented.value, secret, now)), mine := w.mine + {secret},
           client := w.client.(refreshing := Some(r.(progress := Answered(Granted(access, secret))))))
  }

  function OnFail(w: World): World {
    if w.client.refreshing == None || !w.client.refreshing.value.progress.Redeemed? then w
    else
      var r := w.client.refreshing.value;
      w.(book := if r.presented.Some? then Step(w.book, IssueFails(r.presented.value)) else w.book,
         client := w.client.(refreshing := Some(r.(progress := Answered(Errored)))))
  }

  function Next(w: World, h: Happening): World {
    match h
    case Begin(id, auth) => if id in w.client.requests then w else w.(client := Send(w.client, id, auth))
    case Response(id, unauthorized) => w.(client := OnResponse(w.client, id, unauthorized))
    case Bootstrap => w.(client := JoinRefresh(w.client))
    case Redeem(now) => OnRedeem(w, now)
    case Grant(access, secret, now) => OnGrant(w, access, secret, now)
    case Fail => OnFail(w)
    case Refreshed => w.(client := OnRefreshed(w.client))
    case Lost => w.(client := OnLost(w.client))
    case SignIn(attempt, access, secret, now) =>
      if attempt !in w.book.checked || secret in w.book.table.rows then w
      else
        w.(book := Step(w.book, LogIn(attempt, secret, now)), mine := w.mine + {secret},
           client := w.client.(cookie := Some(secret), access := Some(access)))
    case SignOut =>
      w.(book := if w.client.cookie.Some? then Step(w.book, LogOut(w.client.cookie.value)) else w.book,
         client := w.client.(cookie := None, access := None))
    case Elsewhere(e) => if Allowed(w, e) then w.(book := Step(w.book, e)) else w
  }

  // ----------------------------------------------------------------------- invariants

  ghost predicate Held(w: World) {
    var c := w.client;
    && Kept(w.book)
    && (forall s <- w.mine :: s in w.book.table.rows)
    && (c.cookie.Some? ==> c.cookie.value in w.mine)
    && (c.refreshing.Some? ==>
          var r := c.refreshing.value;
          && (r.presented.Some? ==> r.presented.value in w.mine)
          && (r.progress.Redeemed? ==> r.presented.Some? && r.presented.value in w.book.issuing)
          && (r.progress == Answered(Errored) ==> r.presented.Some? && r.presented.value in w.book.redeemed)
          && (r.progress.Answered? && r.progress.answer.Granted? ==>
                && r.presented.Some? && r.presented.value in w.book.redeemed
                && r.progress.answer.next in w.mine && r.progress.answer.next !in w.book.redeemed))
  }

  /** The cookie is good for a refresh as far as this browser is concerned: it has not been redeemed,
      unless the refresh that redeemed it is still on its way. */
  ghost predicate CookieIsFresh(w: World) {
    var c := w.client;
    && (c.refreshing.Some?
        && (c.refreshing.value.progress == Asked || c.refreshing.value.progress == Answered(Denied)) ==>
          c.refreshing.value.presented.Some? ==> c.refreshing.value.presented.value !in w.book.redeemed)
    && (c.cookie.Some? && c.cookie.value in w.book.redeemed ==>
       c.refreshing.Some? && c.refreshing.value.presented == c.cookie)
  }

  /** The browser loses the successor of the token in its cookie: none was issued, or its answer is lost. */
  predicate Breaks(w: World, h: Happening) {
    && w.client.refreshing.Some?
    && var r := w.client.refreshing.value;
       && w.client.cookie.Some? && r.presented == w.client.cookie
       && ((h.Refreshed? && r.progress == Answered(Errored))
           || (h.Lost? && r.progress != Asked && r.progress != Answered(Denied)))
  }

  lemma RedeemIsHeld(w: World, now: Time)
    requires Held(w)
    ensures Held(OnRedeem(w, now))
  {}

  lemma GrantIsHeld(w: World, access: Access, secret: Secret, now: Time)
    requires Held(w)
    ensures Held(OnGrant(w, access, secret, now))
  {
    if w.client.refreshing.Some? && w.client.refreshing.value.presented.Some? {
      StepIsKept(w.book, Issue(w.client.refreshing.value.presented.value, secret, now));
    }
  }

  lemma FailIsHeld(w: World)
    requires Held(w)
    ensures Held(OnFail(w))
  {}

  lemma SignIsHeld(w: World, h: Happening)
    requires Held(w) && (h.SignIn? || h.SignOut?)
    ensures Held(Next(w, h))
  {}

  lemma ElsewhereIsHeld(w: World, e: Event)
    requires Held(w) && Allowed(w, e)
    ensures Held(w.(book := Step(w.book, e)))
  {
    StepIsKept(w.book, e);
  }

  lemma NextIsHeld(w: World, h: Happening)
    requires Held(w)
    ensures Held(Next(w, h))
  {
    match h
    case Redeem(now) => RedeemIsHeld(w, now);
    case Grant(access, secret, now) => GrantIsHeld(w, access, secret, now);
    case Fail => FailIsHeld(w);
    case SignIn(_, _, _, _) => SignIsHeld(w, h);
    case SignOut => SignIsHeld(w, h);
    case Elsewhere(e) => if Allowed(w, e) { ElsewhereIsHeld(w, e); }
    case _ =>
  }

  lemma NextIsFreshIff(w: World, h: Happening)
    requires Held(w) && CookieIsFresh(w)
    ensures CookieIsFresh(Next(w, h)) <==> !Breaks(w, h)
  {
    match h
    case Redeem(now) =>
    case Grant(access, secret, now) =>
    case Elsewhere(e) =>
    case _ =>
  }

  /** A refresh goes out in this step, with this cookie. */
  ghost predicate Presents(w: World, h: Happening, s: Secret) {
    w.client.refreshing == None && Next(w, h).client.refreshing == Some(Refreshing(Some(s), Asked))
  }

  // ---------------------------------------------------------------------------- runs

  function End(w: World, run: seq<Happening>): World
    decreases |run|
  {
    if run == [] then w else End(Next(w, run[0]), run[1..])
  }

  ghost predicate NoneBreaks(w: World, run: seq<Happening>)
    decreases |run|
  {
    run != [] ==> !Breaks(w, run[0]) && NoneBreaks(Next(w, run[0]), run[1..])
  }

  lemma {:induction false} RunIsFresh(w: World, run: seq<Happening>)
    requires Held(w) && CookieIsFresh(w) && NoneBreaks(w, run)
    ensures Held(End(w, run)) && CookieIsFresh(End(w, run))
    decreases |run|
  {
    if run != [] {
      NextIsHeld(w, run[0]);
      NextIsFreshIff(w, run[0]);
      RunIsFresh(Next(w, run[0]), run[1..]);
    }
  }

  /** However many requests are refused at once, and whatever other users do meanwhile, a browser whose
      refreshes were all issued a successor and heard of it never presents a token twice. */
  lemma NeverPresentsRedeemed(run: seq<Happening>, h: Happening, s: Secret)
    requires NoneBreaks(START, run) && Presents(End(START, run), h, s)
    ensures s !in End(START, run).book.redeemed
  {
    RunIsFresh(START, run);
    var w := End(START, run);
    var next := Next(w, h);
    assert w.client.cookie == Some(s);
  }

  /** The condition is needed: after any break, the next refresh presents the token a second time, and
      the server takes the cookie away. */
  lemma BrokenSignsOut(w: World, h: Happening, now: Time)
    requires Good(w.book) && Held(w) && CookieIsFresh(w) && Breaks(w, h)
    ensures var s := w.client.cookie.value;
            var broken := Next(w, h);
            && s in broken.book.redeemed && Presents(broken, Bootstrap, s)
            && End(broken, [Bootstrap, Redeem(now), Refreshed]).client.cookie == None
  {
    var s := w.client.cookie.value;
    var broken := Next(w, h);
    assert s in broken.book.redeemed;
    RedeemedIsSpent(broken.book, s, now);
    var w1 := Next(broken, Bootstrap);
    var w2 := Next(w1, Redeem(now));
    assert !Redeemable(w1.book.table, s, now);
    assert w2.client.refreshing == Some(Refreshing(Some(s), Answered(Denied)));
    var run := [Bootstrap, Redeem(now), Refreshed];
    assert run[1..] == [Redeem(now), Refreshed] && run[1..][1..] == [Refreshed];
    assert End(broken, run) == End(w1, run[1..]) == End(w2, run[1..][1..]) == Next(w2, Refreshed);
  }

  lemma EndOfFour(w: World, a: Happening, b: Happening, c: Happening, d: Happening)
    ensures End(w, [a, b, c, d]) == Next(Next(Next(Next(w, a), b), c), d)
  {
    hide Next;
    var run := [a, b, c, d];
    assert run[1..] == [b, c, d] && run[1..][1..] == [c, d] && run[1..][1..][1..] == [d];
    var w1 := Next(w, a);
    var w2 := Next(w1, b);
    var w3 := Next(w2, c);
    assert End(w, run) == End(w1, run[1..]) == End(w2, run[1..][1..]) == End(w3, [d]);
    assert [d][1..] == [] && End(w3, [d]) == Next(w3, d);
  }

  /** A refresh of a token that can be redeemed renews the session: the browser has the new access token and
      the successor, which works, and the token presented is dead. */
  lemma RefreshRenews(w: World, s: Secret, access: Access, secret: Secret, now: Time, later: Time)
    requires Good(w.book) && Held(w) && w.client.refreshing == None && w.client.cookie == Some(s)
    requires Redeemable(w.book.table, s, now) && secret !in w.book.table.rows
    ensures var end := End(w, [Bootstrap, Redeem(now), Grant(access, secret, now), Refreshed]);
            && end.client.access == Some(access) && end.client.cookie == Some(secret) && end.client.refreshing == None
            && !Redeemable(end.book.table, s, later)
            && (Redeemable(end.book.table, secret, later) <==>
                  later < now + 2_592_000 && w.book.table.rows[s].user in w.book.table.active)
  {
    EndOfFour(w, Bootstrap, Redeem(now), Grant(access, secret, now), Refreshed);
    var w1 := Next(w, Bootstrap);
    var w2 := Next(w1, Redeem(now));
    StepIsGood(w.book, Event.Refresh(s, now));
    IssuedWorks(w2.book, s, secret, now, later);
    hide Good, Held;
  }

  /** Signing in begins one: the browser has the access token and a refresh token that works. */
  lemma SignInBegins(w: World, attempt: Attempt, access: Access, secret: Secret, now: Time, later: Time)
    requires attempt in w.book.checked && secret !in w.book.table.rows
    ensures var end := Next(w, SignIn(attempt, access, secret, now));
            && end.client.access == Some(access) && end.client.cookie == Some(secret)
            && end.client.requests == w.client.requests && end.client.refreshing == w.client.refreshing
            && (Redeemable(end.book.table, secret, later) <==>
                  later < now + 2_592_000 && w.book.checked[attempt].user in w.book.table.active)
  {}

  /** Signing out ends the session: the token of the cookie is dead, no later refresh brings it back, and
      requests go out without a token. */
  lemma SignOutEnds(w: World, now: Time, later: Time, id: RequestId, auth: bool)
    requires Good(w.book) && w.client.refreshing == None && id !in w.client.requests
    ensures var end := End(w, [SignOut, Bootstrap, Redeem(now), Refreshed]);
            && end.client.access == None && end.client.cookie == None && end.client.refreshing == None
            && (w.client.cookie.Some? ==> !Redeemable(end.book.table, w.client.cookie.value, later))
    ensures var sent := Next(Next(w, SignOut), Begin(id, auth)).client.requests;
            id in sent && sent[id].stage == Sent(None)
  {
    EndOfFour(w, SignOut, Bootstrap, Redeem(now), Refreshed);
    hide Good;
  }

  /** A browser that has signed in and whose refresh the server has redeemed. */
  function MidRefresh(): World {
    var w1 := Next(START, Elsewhere(SetActive(1, true)));
    var w2 := Next(w1, Elsewhere(CheckPassword(7, 1)));
    Next(Next(Next(w2, SignIn(7, 10, 100, 0)), Bootstrap), Redeem(1))
  }

  lemma MidRefreshIs(run: seq<Happening>)
    requires run == [Elsewhere(SetActive(1, true)), Elsewhere(CheckPassword(7, 1)),
                     SignIn(7, 10, 100, 0), Bootstrap, Redeem(1)]
    ensures End(START, run) == MidRefresh()
    ensures MidRefresh().client.cookie == Some(100)
    ensures MidRefresh().client.refreshing == Some(Refreshing(Some(100), Redeemed(1)))
  {
    var w1 := Next(START, run[0]);
    var w2 := Next(w1, run[1]);
    var w3 := Next(w2, run[2]);
    var w4 := Next(w3, run[3]);
    assert run[1..] == [run[1], run[2], run[3], run[4]] && run[1..][1..] == [run[2], run[3], run[4]];
    assert run[1..][1..][1..] == [run[3], run[4]] && run[1..][1..][1..][1..] == [run[4]];
    assert End(START, run) == End(w1, run[1..]) == End(w2, run[1..][1..]) == End(w3, run[1..][1..][1..])
        == End(w4, [run[4]]);
    assert [run[4]][1..] == [] && End(w4, [run[4]]) == Next(w4, run[4]);
  }

  /** It does happen: the answer is lost, or none could be issued. */
  lemma BreaksIsReachable()
    ensures exists run :: Breaks(End(START, run), Lost)
    ensures exists run :: Breaks(Next(End(START, run), Fail), Refreshed)
  {
    var run := [Elsewhere(SetActive(1, true)), Elsewhere(CheckPassword(7, 1)),
                SignIn(7, 10, 100, 0), Bootstrap, Redeem(1)];
    MidRefreshIs(run);
    assert Breaks(End(START, run), Lost);
    assert Breaks(Next(End(START, run), Fail), Refreshed);
  }

  /** One at a time: a refused request never starts a second refresh beside the one on its way, and every
      request that waited for it goes out again with the token it brought. */
  lemma EveryWaiterIsServed(c: Client, id: RequestId)
    requires c.refreshing.Some? && c.refreshing.value.progress.Answered? && id in c.requests
        && c.requests[id].stage == Waiting
    ensures var next := OnRefreshed(c);
            && next.refreshing == None && id in next.requests
            && next.requests[id].stage == (match c.refreshing.value.progress.answer
                                           case Granted(access, _) => Sent(Some(access))
                                           case _ => Over)
            && next.access == (match c.refreshing.value.progress.answer
                               case Granted(access, _) => Some(access)
                               case _ => None)
            && next.cookie == (match c.refreshing.value.progress.answer
                               case Granted(_, secret) => Some(secret)
                               case Denied => None
                               case Errored => c.cookie)
            && forall other <- next.requests :: next.requests[other].stage != Waiting
  {}

  /** A request that waits has a refresh to wait for; none goes out more than twice. */
  ghost predicate Orderly(c: Client) {
    && (forall id <- c.requests :: c.requests[id].stage == Waiting ==> c.refreshing.Some?)
    && (forall id <- c.requests :: c.requests[id].sends == (if c.requests[id].retried then 2 else 1)
                                   && (c.requests[id].stage == Waiting ==> !c.requests[id].retried))
  }

  lemma {:induction false} RequestsGoOutTwiceAtMost(w: World, run: seq<Happening>)
    requires Orderly(w.client)
    ensures Orderly(End(w, run).client)
    ensures forall id <- End(w, run).client.requests :: End(w, run).client.requests[id].sends <= 2
    decreases |run|
  {
    if run != [] {
      NextIsOrderly(w, run[0]);
      RequestsGoOutTwiceAtMost(Next(w, run[0]), run[1..]);
    }
  }

  lemma NextIsOrderly(w: World, h: Happening)
    requires Orderly(w.client)
    ensures Orderly(Next(w, h).client)
  {
    hide Step, Allowed, Redeemable;
  }

}
