/** db/agent/agent_functions.sql: leases by which agents claim requirements.

    Every SQL function is one atomic step over three tables, stamped with the time `now` at which
    its transaction started. A raised exception rolls the whole step back. Rows locked by other
    transactions are a parameter, since SKIP LOCKED makes them visible. */
module Lease {
  import opened Wrappers
  import Sets

  type ReqId = int
  type ClaimId = int
  type AgentId = int
  type SpaceId = int
  type StatusId = int
  type PriorityId = int
  type TrackerId = int
  type Time = int
  type Interval = int

  /** A row of `requirement`, with the columns the lease functions read or write. */
  datatype Req = Req(
    space: SpaceId, status: StatusId, priority: PriorityId, tracker: TrackerId,
    boardPosition: real, createdAt: Time,
    claimId: Option<ClaimId>, claimedBy: Option<AgentId>, expiresAt: Option<Time>)

  /** A row of `agent_claim`. */
  datatype Claim = Claim(
    requirement: ReqId, agent: AgentId, acquiredAt: Time, expiresAt: Time,
    previousStatus: Option<StatusId>, renewals: nat,
    completedAt: Option<Time>, completionState: Option<string>)

  /** The tables; `members` holds the rows of `requirement_member` whose subject is an agent. */
  datatype Db = Db(reqs: map<ReqId, Req>, claims: map<ClaimId, Claim>, members: set<(ReqId, AgentId)>)

  /** The catalogues that the queries join with, fixed for the duration of a run. */
  datatype Catalog = Catalog(
    claimable: StatusId -> bool, weight: PriorityId -> int, agentEnabled: TrackerId -> bool,
    inProgress: Option<StatusId>)

  /** Who the session acts for: `qg_actor_type()` and `qg_actor_id()`. */
  datatype Actor = User(userId: int) | Agent(agentId: AgentId) | System {
    function Id(): Option<int> {
      match this
      case User(id) => Some(id)
      case Agent(id) => Some(id)
      case System => None
    }
  }

  datatype Error =
    | NotAnAgent | Unavailable | HeldByAnother | StatusNotClaimable | DuplicateRow
    | NoLeaseOfYours | NotClaimed | OwnedByAnother

  datatype Result<+T> = Ok(value: T) | Err(error: Error)

  /** What `requirement_transition` does when it is called: it raises, or it moves the card to the
      bottom of the target column, at a position that the lease functions do not control. */
  datatype Transition = Raises | MovesTo(boardPosition: real)

  function Transitioned(r: Req, to: StatusId, t: Transition): Req {
    if r.status == to || t.Raises? then r else r.(status := to, boardPosition := t.boardPosition)
  }

  // ------------------------------------------------------------------ invariants

  /** The lease columns of a requirement are all null or all set. */
  predicate AllOrNone(r: Req) {
    r.claimId.Some? == r.claimedBy.Some? == r.expiresAt.Some?
  }

  /** A claim row that its requirement points to. */
  predicate Current(db: Db, c: ClaimId)
    requires c in db.claims
  {
    var r := db.claims[c].requirement;
    r in db.reqs && db.reqs[r].claimId == Some(c)
  }

  /** Set lease columns mirror an open claim row of that requirement, and its agent is a member. */
  ghost predicate Mirrored(db: Db, id: ReqId)
    requires id in db.reqs
  {
    var r := db.reqs[id];
    && AllOrNone(r)
    && (r.claimId.Some? ==>
          && r.claimId.value in db.claims
          && (id, r.claimedBy.value) in db.members
          && var c := db.claims[r.claimId.value];
             && c.requirement == id && c.agent == r.claimedBy.value
             && c.expiresAt == r.expiresAt.value && c.completedAt == None && c.previousStatus.Some?)
  }

  ghost predicate Consistent(db: Db) {
    && (forall id <- db.reqs :: Mirrored(db, id))
    && (forall c <- db.claims :: db.claims[c].requirement in db.reqs)
  }

  /** Open claim rows that their requirement has moved on from, by a takeover, lapsed before that. */
  ghost predicate OrphansLapsed(db: Db, now: Time) {
    forall c <- db.claims :: db.claims[c].completedAt == None && !Current(db, c) ==> db.claims[c].expiresAt <= now
  }

  /** A claim row under which an agent may be working. */
  predicate Live(c: Claim, now: Time) {
    c.completedAt == None && c.expiresAt > now
  }

  /** The point of the protocol: no two agents hold the same requirement at once. */
  ghost predicate Exclusive(db: Db, now: Time) {
    forall c, d | c in db.claims && d in db.claims && Live(db.claims[c], now) && Live(db.claims[d], now) ::
      db.claims[c].requirement == db.claims[d].requirement ==> c == d
  }

  // ----------------------------------------------------- the functions, as values

  predicate Leased(r: Req, now: Time) {
    r.claimedBy.Some? && r.expiresAt.Some? && r.expiresAt.value > now
  }

  /** The UNIQUE constraint of `agent_claim`, and its primary key. */
  predicate Insertable(db: Db, newId: ClaimId, id: ReqId, agent: AgentId, now: Time) {
    && newId !in db.claims
    && forall c <- db.claims ::
         !(db.claims[c].requirement == id && db.claims[c].agent == agent && db.claims[c].acquiredAt == now)
  }

  /** The tables after a claim has been granted. */
  function Granted(db: Db, cat: Catalog, now: Time, agent: AgentId, id: ReqId, lease: Interval, newId: ClaimId,
                   t: Transition): Db
    requires id in db.reqs
  {
    var r := db.reqs[id];
    var held := r.(claimId := Some(newId), claimedBy := Some(agent), expiresAt := Some(now + lease));
    var moved := if cat.inProgress.Some? then Transitioned(held, cat.inProgress.value, t) else held;
    Db(db.reqs[id := moved],
       db.claims[newId := Claim(id, agent, now, now + lease, Some(r.status), 0, None, None)],
       db.members + {(id, agent)})
  }

  function AgentClaim(
    db: Db, cat: Catalog, now: Time, actor: Actor, locked: set<ReqId>,
    id: ReqId, lease: Interval, newId: ClaimId, t: Transition): (Db, Result<ClaimId>)
    requires Consistent(db)
  {
    if !actor.Agent? then (db, Err(NotAnAgent))
    else if id !in db.reqs || id in locked then (db, Err(Unavailable))
    else
      var r := db.reqs[id];
      assert Mirrored(db, id);
      if Leased(r, now) then
        (db, if r.claimedBy == Some(actor.agentId) then Ok(r.claimId.value) else Err(HeldByAnother))
      else if !cat.claimable(r.status) then (db, Err(StatusNotClaimable))
      else if !Insertable(db, newId, id, actor.agentId, now) then (db, Err(DuplicateRow))
      else (Granted(db, cat, now, actor.agentId, id, lease, newId, t), Ok(newId))
  }

  /** The rows that the queue query of `agent_claim_next` can return. */
  predicate Eligible(db: Db, cat: Catalog, now: Time, locked: set<ReqId>, space: SpaceId, id: ReqId) {
    && id in db.reqs && id !in locked
    && var r := db.reqs[id];
       && r.space == space && cat.claimable(r.status) && cat.agentEnabled(r.tracker)
       && (r.claimedBy == None || (r.expiresAt.Some? && r.expiresAt.value < now))
  }

  /** ORDER BY weight DESC, board_position, created_at. */
  predicate NotAfter(cat: Catalog, x: Req, y: Req) {
    || cat.weight(x.priority) > cat.weight(y.priority)
    || (cat.weight(x.priority) == cat.weight(y.priority) &&
        (x.boardPosition < y.boardPosition || (x.boardPosition == y.boardPosition && x.createdAt <= y.createdAt)))
  }

  /** A row that LIMIT 1 may keep: which one, among equals, is up to the database. */
  ghost predicate HeadOfQueue(db: Db, cat: Catalog, now: Time, locked: set<ReqId>, space: SpaceId, id: ReqId) {
    && Eligible(db, cat, now, locked, space, id)
    && forall other <- db.reqs :: Eligible(db, cat, now, locked, space, other) ==>
       NotAfter(cat, db.reqs[id], db.reqs[other])
  }

  function AgentClaimRenew(db: Db, now: Time, actor: Actor, id: ReqId, lease: Interval): (Db, Result<Time>)
    requires Consistent(db)
  {
    if id !in db.reqs || actor.Id() == None || db.reqs[id].claimedBy != actor.Id() then (db, Err(NoLeaseOfYours))
    else
      var r := db.reqs[id];
      assert Mirrored(db, id);
      var c := db.claims[r.claimId.value];
      (Db(db.reqs[id := r.(expiresAt := Some(now + lease))],
          db.claims[r.claimId.value := c.(expiresAt := now + lease, renewals := c.renewals + 1)],
          db.members),
       Ok(now + lease))
  }

  /** The completion states after which the requirement goes back to where it was claimed from. */
  predicate Restores(state: string) {
    state == "abandoned" || state == "failed" || state == "expired"
  }

  function Freed(r: Req, c: Claim, state: string, t: Transition): Req {
    var free := r.(claimId := None, claimedBy := None, expiresAt := None);
    if Restores(state) && c.previousStatus.Some? then Transitioned(free, c.previousStatus.value, t) else free
  }

  function Completed(c: Claim, now: Time, state: string): Claim {
    c.(completedAt := Some(now), completionState := Some(state))
  }

  /** The tables after every lease in `ids` has ended in the same way, each with its own transition. */
  function Ended(db: Db, now: Time, ids: set<ReqId>, state: string, ts: ReqId -> Transition): Db
    requires Consistent(db)
    requires forall id <- ids :: id in db.reqs && db.reqs[id].claimId.Some?
  {
    assert forall id <- ids :: Mirrored(db, id);
    Db(map id | id in db.reqs ::
         if id in ids then Freed(db.reqs[id], db.claims[db.reqs[id].claimId.value], state, ts(id)) else db.reqs[id],
       map c | c in db.claims ::
         if db.claims[c].requirement in ids && Current(db, c) then Completed(db.claims[c], now, state)
             else db.claims[c],
       set m | m in db.members && !(m.0 in ids && m.0 in db.reqs && db.reqs[m.0].claimedBy == Some(m.1)))
  }

  function AgentRelease(db: Db, now: Time, actor: Actor, id: ReqId, state: string, t: Transition): (Db, Result<()>)
    requires Consistent(db)
  {
    if id !in db.reqs || db.reqs[id].claimId == None then (db, Err(NotClaimed))
    else if actor.Agent? && db.reqs[id].claimedBy != Some(actor.agentId) then (db, Err(OwnedByAnother))
    else (Ended(db, now, {id}, state, _ => t), Ok(()))
  }

  /** The rows over which the sweeper loops. */
  function Lapsed(db: Db, now: Time, locked: set<ReqId>): set<ReqId> {
    set id | id in db.reqs && id !in locked && db.reqs[id].expiresAt.Some? && db.reqs[id].expiresAt.value < now
  }

  lemma LapsedAreClaimed(db: Db, now: Time, locked: set<ReqId>)
    requires Consistent(db)
    ensures forall id <- Lapsed(db, now, locked) :: id in db.reqs && db.reqs[id].claimId.Some?
  {
    forall id | id in Lapsed(db, now, locked) ensures db.reqs[id].claimId.Some? {
      assert Mirrored(db, id);
    }
  }

  function AgentClaimsExpire(db: Db, now: Time, locked: set<ReqId>, ts: ReqId -> Transition): (Db, nat)
    requires Consistent(db)
  {
    LapsedAreClaimed(db, now, locked);
    var ids := Lapsed(db, now, locked);
    (Ended(db, now, ids, "expired", ts), |ids|)
  }

  // ----------------------------------------------------- one step at a time

  lemma {:induction false} QueueHasHead(db: Db, cat: Catalog, queue: set<ReqId>)
    requires queue != {} && queue <= db.reqs.Keys
    ensures exists id :: id in queue && forall other <- queue :: NotAfter(cat, db.reqs[id], db.reqs[other])
    decreases queue
  {
    var x := Sets.Member(queue);
    var rest := queue - {x};
    var best := x;
    if rest != {} {
      QueueHasHead(db, cat, rest);
      var y :| y in rest && forall other <- rest :: NotAfter(cat, db.reqs[y], db.reqs[other]);
      if NotAfter(cat, db.reqs[y], db.reqs[x]) { best := y; }
    }
    forall other | other in queue ensures NotAfter(cat, db.reqs[best], db.reqs[other]) {
      if other != x { assert other in rest; }
    }
  }

  /** What no step can undo: a row keeps its identity, and a row its requirement does not point to
      is never written again. */
  ghost predicate Evolves(db: Db, db': Db) {
    forall c <- db.claims ::
      && c in db'.claims
      && db'.claims[c].requirement == db.claims[c].requirement
      && db'.claims[c].agent == db.claims[c].agent
      && db'.claims[c].acquiredAt == db.claims[c].acquiredAt
      && db'.claims[c].previousStatus == db.claims[c].previousStatus
      && (!Current(db, c) ==> db'.claims[c] == db.claims[c] && !Current(db', c))
  }

  /** What every step keeps: it leaves the tables consistent, undoes nothing, and leaves no open row
      behind that has not lapsed. */
  ghost predicate Keeps(db: Db, now: Time, db': Db) {
    Consistent(db') && Evolves(db, db') && (OrphansLapsed(db, now) ==> OrphansLapsed(db', now))
  }

  /** Granting, which on a takeover abandons the row of the lapsed lease. */
  lemma GrantedKeeps(db: Db, cat: Catalog, now: Time, agent: AgentId, id: ReqId, lease: Interval, newId: ClaimId,
                     t: Transition)
    requires Consistent(db) && id in db.reqs && !Leased(db.reqs[id], now) && newId !in db.claims
    ensures Keeps(db, now, Granted(db, cat, now, agent, id, lease, newId, t))
  {
    var db' := Granted(db, cat, now, agent, id, lease, newId, t);
    forall other | other in db'.reqs ensures Mirrored(db', other) {
      assert Mirrored(db, other);
    }
    forall c | c in db.claims ensures Current(db', c) ==> Current(db, c) && db.claims[c].requirement != id {}
    if OrphansLapsed(db, now) {
      forall c | c in db'.claims && db'.claims[c].completedAt == None && !Current(db', c)
        ensures db'.claims[c].expiresAt <= now
      {
        assert Mirrored(db, id);
      }
    }
  }

  lemma RenewedKeeps(db: Db, now: Time, actor: Actor, id: ReqId, lease: Interval)
    requires Consistent(db)
    ensures Keeps(db, now, AgentClaimRenew(db, now, actor, id, lease).0)
  {
    var db' := AgentClaimRenew(db, now, actor, id, lease).0;
    if id in db.reqs { assert Mirrored(db, id); }
    forall other | other in db'.reqs ensures Mirrored(db', other) {
      assert Mirrored(db, other);
    }
    forall c | c in db.claims ensures Current(db', c) == Current(db, c) {}
  }

  lemma EndedKeeps(db: Db, now: Time, ids: set<ReqId>, state: string, ts: ReqId -> Transition)
    requires Consistent(db)
    requires forall id <- ids :: id in db.reqs && db.reqs[id].claimId.Some?
    ensures Keeps(db, now, Ended(db, now, ids, state, ts))
  {
    var db' := Ended(db, now, ids, state, ts);
    forall other | other in db'.reqs ensures Mirrored(db', other) {
      assert Mirrored(db, other);
    }
    forall c | c in db.claims ensures Current(db', c) ==> Current(db, c) && db'.claims[c] == db.claims[c] {}
  }

  /** Ending one lease, written as the three updates that `agent_release` makes. */
  lemma EndedOne(db: Db, now: Time, id: ReqId, state: string, t: Transition)
    requires Consistent(db) && id in db.reqs && db.reqs[id].claimId.Some?
    ensures Mirrored(db, id)
    ensures var r, c := db.reqs[id], db.reqs[id].claimId.value;
      Ended(db, now, {id}, state, _ => t) ==
      Db(db.reqs[id := Freed(r, db.claims[c], state, t)],
         db.claims[c := Completed(db.claims[c], now, state)],
         db.members - {(id, db.claims[c].agent)})
  {
    assert Mirrored(db, id);
    var r, c := db.reqs[id], db.reqs[id].claimId.value;
    var e := Ended(db, now, {id}, state, _ => t);
    assert e.reqs == db.reqs[id := Freed(r, db.claims[c], state, t)];
    assert e.claims == db.claims[c := Completed(db.claims[c], now, state)];
    assert e.members == db.members - {(id, db.claims[c].agent)};
  }

  lemma EndedNone(db: Db, now: Time, state: string, ts: ReqId -> Transition)
    requires Consistent(db)
    ensures Ended(db, now, {}, state, ts) == db
  {
    var e := Ended(db, now, {}, state, ts);
    assert e.reqs == db.reqs && e.claims == db.claims && e.members == db.members;
  }

  /** Ending some leases leaves the rows of the others as they were. */
  lemma EndedFrame(db: Db, now: Time, ids: set<ReqId>, state: string, ts: ReqId -> Transition, id: ReqId)
    requires Consistent(db) && id in db.reqs && id !in ids && db.reqs[id].claimId.Some?
    requires forall x <- ids :: x in db.reqs && db.reqs[x].claimId.Some?
    ensures var e := Ended(db, now, ids, state, ts);
      && id in e.reqs && e.reqs[id] == db.reqs[id]
      && db.reqs[id].claimId.value in db.claims
      && e.claims.Keys == db.claims.Keys
      && e.claims[db.reqs[id].claimId.value] == db.claims[db.reqs[id].claimId.value]
  {
    assert Mirrored(db, id);
  }

  /** One turn of the sweeper's loop: releasing the next lease succeeds and brings the tables to the
      state in which that lease has ended as well. Leases end independently of each other, so the
      sweeper may take them in any order. */
  lemma SweptMore(db: Db, now: Time, done: set<ReqId>, id: ReqId, ts: ReqId -> Transition)
    requires Consistent(db) && id !in done
    requires forall x <- done + {id} :: x in db.reqs && db.reqs[x].claimId.Some?
    requires Consistent(Ended(db, now, done, "expired", ts))
    ensures AgentRelease(Ended(db, now, done, "expired", ts), now, System, id, "expired", ts(id))
         == (Ended(db, now, done + {id}, "expired", ts), Ok(()))
  {
    EndedFrame(db, now, done, "expired", ts, id);
    SweptReqs(db, now, done, id, ts);
    SweptClaims(db, now, done, id, ts);
    SweptMembers(db, now, done, id, ts);
  }

  /** The next lease can be ended after the others. */
  ghost predicate Sweepable(db: Db, now: Time, done: set<ReqId>, id: ReqId, ts: ReqId -> Transition) {
    && Consistent(db) && id !in done
    && (forall x <- done + {id} :: x in db.reqs && db.reqs[x].claimId.Some?)
    && var mid := Ended(db, now, done, "expired", ts);
       Consistent(mid) && id in mid.reqs && mid.reqs[id].claimId.Some?
  }

  lemma SweptReq(db: Db, now: Time, done: set<ReqId>, id: ReqId, ts: ReqId -> Transition, x: ReqId)
    requires Sweepable(db, now, done, id, ts) && x in db.reqs
    ensures x in Ended(db, now, done, "expired", ts).reqs
    ensures Ended(Ended(db, now, done, "expired", ts), now, {id}, "expired", _ => ts(id)).reqs[x]
         == Ended(db, now, done + {id}, "expired", ts).reqs[x]
  {
    if x == id { EndedFrame(db, now, done, "expired", ts, id); }
  }

  lemma SweptReqs(db: Db, now: Time, done: set<ReqId>, id: ReqId, ts: ReqId -> Transition)
    requires Sweepable(db, now, done, id, ts)
    ensures Ended(Ended(db, now, done, "expired", ts), now, {id}, "expired", _ => ts(id)).reqs
         == Ended(db, now, done + {id}, "expired", ts).reqs
  {
    forall x <- db.reqs
      ensures x in Ended(db, now, done, "expired", ts).reqs
      ensures Ended(Ended(db, now, done, "expired", ts), now, {id}, "expired", _ => ts(id)).reqs[x]
           == Ended(db, now, done + {id}, "expired", ts).reqs[x]
    {
      SweptReq(db, now, done, id, ts, x);
    }
  }

  lemma SweptClaim(db: Db, now: Time, done: set<ReqId>, id: ReqId, ts: ReqId -> Transition, c: ClaimId)
    requires Sweepable(db, now, done, id, ts) && c in db.claims
    ensures c in Ended(db, now, done, "expired", ts).claims
    ensures Ended(Ended(db, now, done, "expired", ts), now, {id}, "expired", _ => ts(id)).claims[c]
         == Ended(db, now, done + {id}, "expired", ts).claims[c]
  {
    var mid := Ended(db, now, done, "expired", ts);
    var r := db.claims[c].requirement;
    assert mid.claims[c].requirement == r;
    if r == id {
      EndedFrame(db, now, done, "expired", ts, id);
      assert Current(mid, c) == Current(db, c);
    }
  }

  lemma SweptClaims(db: Db, now: Time, done: set<ReqId>, id: ReqId, ts: ReqId -> Transition)
    requires Sweepable(db, now, done, id, ts)
    ensures Ended(Ended(db, now, done, "expired", ts), now, {id}, "expired", _ => ts(id)).claims
         == Ended(db, now, done + {id}, "expired", ts).claims
  {
    hide Mirrored, Freed, Completed, Current, AllOrNone;
    forall c <- db.claims
      ensures c in Ended(db, now, done, "expired", ts).claims
      ensures Ended(Ended(db, now, done, "expired", ts), now, {id}, "expired", _ => ts(id)).claims[c]
           == Ended(db, now, done + {id}, "expired", ts).claims[c]
    {
      SweptClaim(db, now, done, id, ts, c);
    }
  }

  lemma SweptMembers(db: Db, now: Time, done: set<ReqId>, id: ReqId, ts: ReqId -> Transition)
    requires Sweepable(db, now, done, id, ts)
    ensures Ended(Ended(db, now, done, "expired", ts), now, {id}, "expired", _ => ts(id)).members
         == Ended(db, now, done + {id}, "expired", ts).members
  {
    EndedFrame(db, now, done, "expired", ts, id);
  }

  // ------------------------------------------------------------------- whole runs

  /** Whatever can happen between two looks at the tables. `Other` stands for every function of the
      database that creates a requirement or changes one without touching its lease columns. */
  datatype Op =
    | TryClaim(actor: Actor, locked: set<ReqId>, id: ReqId, lease: Interval, newId: ClaimId, t: Transition)
    | ClaimNext(actor: Actor, locked: set<ReqId>, space: SpaceId, picked: ReqId, lease: Interval, newId: ClaimId,
        t: Transition)
    | Renew(actor: Actor, id: ReqId, lease: Interval)
    | Release(actor: Actor, id: ReqId, state: string, t: Transition)
    | Expire(locked: set<ReqId>, ts: ReqId -> Transition)
    | Other(id: ReqId, row: Req)

  datatype Event = Event(at: Time, op: Op)

  ghost function Step(db: Db, cat: Catalog, e: Event): (db': Db)
    requires Consistent(db)
  {
    match e.op
    case TryClaim(actor, locked, id, lease, newId, t) => AgentClaim(db, cat, e.at, actor, locked, id, lease, newId, t).0
    case ClaimNext(actor, locked, space, picked, lease, newId, t) =>
      if HeadOfQueue(db, cat, e.at, locked, space, picked)
      then AgentClaim(db, cat, e.at, actor, locked, picked, lease, newId, t).0
      else db
    case Renew(actor, id, lease) => AgentClaimRenew(db, e.at, actor, id, lease).0
    case Release(actor, id, state, t) => AgentRelease(db, e.at, actor, id, state, t).0
    case Expire(locked, ts) => AgentClaimsExpire(db, e.at, locked, ts).0
    case Other(id, row) =>
      var (c, owner, exp) := if id in db.reqs then (db.reqs[id].claimId, db.reqs[id].claimedBy, db.reqs[id].expiresAt)
          else (None, None, None);
      db.(reqs := db.reqs[id := row.(claimId := c, claimedBy := owner, expiresAt := exp)])
  }

  lemma StepKeeps(db: Db, cat: Catalog, e: Event)
    requires Consistent(db)
    ensures Keeps(db, e.at, Step(db, cat, e))
  {
    match e.op
    case TryClaim(actor, locked, id, lease, newId, t) =>
      if Step(db, cat, e) != db { GrantedKeeps(db, cat, e.at, actor.agentId, id, lease, newId, t); }
    case ClaimNext(actor, locked, space, picked, lease, newId, t) =>
      if Step(db, cat, e) != db { GrantedKeeps(db, cat, e.at, actor.agentId, picked, lease, newId, t); }
    case Renew(actor, id, lease) => RenewedKeeps(db, e.at, actor, id, lease);
    case Release(actor, id, state, t) =>
      if Step(db, cat, e) != db { EndedKeeps(db, e.at, {id}, state, _ => t); }
    case Expire(locked, ts) =>
      LapsedAreClaimed(db, e.at, locked);
      EndedKeeps(db, e.at, Lapsed(db, e.at, locked), "expired", ts);
    case Other(id, row) => OtherKeeps(db, cat, e);
  }

  lemma OtherKeeps(db: Db, cat: Catalog, e: Event)
    requires Consistent(db) && e.op.Other?
    ensures Keeps(db, e.at, Step(db, cat, e))
  {
    var db' := Step(db, cat, e);
    forall id | id in db'.reqs ensures Mirrored(db', id) {
      if id in db.reqs { assert Mirrored(db, id); }
    }
    forall c | c in db.claims ensures Current(db', c) == Current(db, c) {}
  }

  /** The clock never runs backwards. */
  ghost predicate Chronological(from: Time, events: seq<Event>)
    decreases |events|
  {
    events != [] ==> from <= events[0].at && Chronological(events[0].at, events[1..])
  }

  ghost function End(from: Time, events: seq<Event>): Time
    decreases |events|
  {
    if events == [] then from else End(events[0].at, events[1..])
  }

  ghost function Run(db: Db, cat: Catalog, events: seq<Event>): (db': Db)
    requires Consistent(db)
    ensures Consistent(db')
    decreases |events|
  {
    if events == [] then db
    else
      StepKeeps(db, cat, events[0]);
      Run(Step(db, cat, events[0]), cat, events[1..])
  }

  lemma {:induction false} RunEvolves(db: Db, cat: Catalog, events: seq<Event>)
    requires Consistent(db)
    ensures Evolves(db, Run(db, cat, events))
    decreases |events|
  {
    if events != [] {
      StepKeeps(db, cat, events[0]);
      RunEvolves(Step(db, cat, events[0]), cat, events[1..]);
    }
  }

  lemma {:induction false} RunLeavesOrphansLapsed(db: Db, cat: Catalog, events: seq<Event>, from: Time)
    requires Consistent(db) && OrphansLapsed(db, from) && Chronological(from, events)
    ensures OrphansLapsed(Run(db, cat, events), End(from, events))
    decreases |events|
  {
    if events != [] {
      StepKeeps(db, cat, events[0]);
      RunLeavesOrphansLapsed(Step(db, cat, events[0]), cat, events[1..], events[0].at);
    }
  }

  // ---------------------------------------------------------------- main results

  /** Exclusion: after any run, at its end and at every later instant, at most one claim row of a
      requirement is open and unexpired. Every prefix of a run is a run, so this covers all states. */
  lemma ExclusiveAlways(db: Db, cat: Catalog, events: seq<Event>, from: Time, now: Time)
    requires Consistent(db) && OrphansLapsed(db, from) && Chronological(from, events) && End(from, events) <= now
    ensures Exclusive(Run(db, cat, events), now)
  {
    RunLeavesOrphansLapsed(db, cat, events, from);
  }

  /** A row that was superseded by a takeover, or that was completed, is never renewed, completed or
      otherwise written again: each claim row is completed at most once. */
  lemma SupersededRowsAreFrozen(db: Db, cat: Catalog, events: seq<Event>, c: ClaimId)
    requires Consistent(db) && c in db.claims && (!Current(db, c) || db.claims[c].completedAt.Some?)
    ensures var db' := Run(db, cat, events);
      c in db'.claims && db'.claims[c] == db.claims[c] && !Current(db', c)
  {
    assert Mirrored(db, db.claims[c].requirement);
    RunEvolves(db, cat, events);
  }

  /** Whether a claim is granted shows in the claim rows alone: no row of the requirement may be live,
      and none may have been acquired by the same agent at the same instant. */
  lemma ClaimGrantsIff(db: Db, cat: Catalog, now: Time, actor: Actor, locked: set<ReqId>, id: ReqId,
                       lease: Interval, newId: ClaimId, t: Transition)
    requires Consistent(db) && OrphansLapsed(db, now) && newId !in db.claims
    ensures AgentClaim(db, cat, now, actor, locked, id, lease, newId, t).1 == Ok(newId) <==>
      && actor.Agent? && id in db.reqs && id !in locked && cat.claimable(db.reqs[id].status)
      && (forall c <- db.claims :: db.claims[c].requirement == id ==> !Live(db.claims[c], now))
      && (forall c <- db.claims :: db.claims[c].requirement == id ==>
         !(db.claims[c].agent == actor.agentId && db.claims[c].acquiredAt == now))
  {
    var res := AgentClaim(db, cat, now, actor, locked, id, lease, newId, t).1;
    if actor.Agent? && id in db.reqs && id !in locked {
      var r := db.reqs[id];
      assert Mirrored(db, id);
      if Leased(r, now) {
        var c: ClaimId := r.claimId.value;
        assert c in db.claims && Live(db.claims[c], now);
      }
      forall c | c in db.claims && db.claims[c].requirement == id && Live(db.claims[c], now) ensures Current(db, c) {}
      assert (res == Ok(newId)) == (!Leased(r, now) && cat.claimable(r.status)
          && Insertable(db, newId, id, actor.agentId, now));
    }
  }

  /** What a claim that is not granted is told, and why. */
  lemma ClaimAnswers(db: Db, cat: Catalog, now: Time, actor: Actor, locked: set<ReqId>, id: ReqId,
                     lease: Interval, newId: ClaimId, t: Transition)
    requires Consistent(db) && OrphansLapsed(db, now) && newId !in db.claims
    ensures var res := AgentClaim(db, cat, now, actor, locked, id, lease, newId, t).1;
      if !actor.Agent? then res == Err(NotAnAgent)
      else if id !in db.reqs || id in locked then res == Err(Unavailable)
      else
        && (forall c <- db.claims :: db.claims[c].requirement == id && Live(db.claims[c], now) ==>
              res == if db.claims[c].agent == actor.agentId then Ok(c) else Err(HeldByAnother))
        && ((forall c <- db.claims :: db.claims[c].requirement == id ==> !Live(db.claims[c], now)) ==>
              if !cat.claimable(db.reqs[id].status) then res == Err(StatusNotClaimable)
              else res == Ok(newId) || res == Err(DuplicateRow))
  {
    if actor.Agent? && id in db.reqs && id !in locked {
      var r := db.reqs[id];
      assert Mirrored(db, id);
      if Leased(r, now) {
        var c: ClaimId := r.claimId.value;
        assert c in db.claims && Live(db.claims[c], now);
      }
      forall c | c in db.claims && db.claims[c].requirement == id && Live(db.claims[c], now) ensures Current(db, c) {}
    }
  }

  /** What a grant gives: a lease that lives for exactly its length, is the current one, remembers where
      the requirement came from and makes its agent a member, and touches nothing else. */
  lemma GrantLasts(db: Db, cat: Catalog, now: Time, actor: Actor, locked: set<ReqId>, id: ReqId, lease: Interval,
                   newId: ClaimId, t: Transition)
    requires Consistent(db) && newId !in db.claims
        && AgentClaim(db, cat, now, actor, locked, id, lease, newId, t).1 == Ok(newId)
    ensures var db' := AgentClaim(db, cat, now, actor, locked, id, lease, newId, t).0;
      && actor.Agent? && id in db.reqs && id in db'.reqs && newId in db'.claims
      && (forall later: Time :: Live(db'.claims[newId], later) <==> later < now + lease)
      && Current(db', newId) && db'.claims[newId].requirement == id && db'.claims[newId].agent == actor.agentId
      && db'.claims[newId].acquiredAt == now && db'.claims[newId].renewals == 0
      && db'.claims[newId].previousStatus == Some(db.reqs[id].status)
      && db'.members == db.members + {(id, actor.agentId)}
      && db'.reqs.Keys == db.reqs.Keys && db'.claims.Keys == db.claims.Keys + {newId}
      && db'.reqs[id].status == (if cat.inProgress.Some? && t.MovesTo? then cat.inProgress.value
         else db.reqs[id].status)
      && db'.reqs[id].boardPosition == (if t.MovesTo? && db'.reqs[id].status != db.reqs[id].status
         then t.boardPosition else db.reqs[id].boardPosition)
      && db'.reqs[id].(status := db.reqs[id].status, boardPosition := db.reqs[id].boardPosition)
         == db.reqs[id].(claimId := Some(newId), claimedBy := Some(actor.agentId), expiresAt := Some(now + lease))
      && (forall c <- db.claims :: c in db'.claims && db'.claims[c] == db.claims[c])
      && (forall other <- db.reqs :: other != id ==> other in db'.reqs && db'.reqs[other] == db.reqs[other])
  {
    assert Mirrored(db, id);
  }

  /** Asking again for what one holds changes nothing and answers with the lease there is. */
  lemma ClaimingAgainIsIdempotent(db: Db, cat: Catalog, now: Time, actor: Actor, locked: set<ReqId>, c: ClaimId,
                                  lease: Interval, newId: ClaimId, t: Transition)
    requires Consistent(db) && c in db.claims && Current(db, c) && Live(db.claims[c], now)
    requires actor == Agent(db.claims[c].agent) && db.claims[c].requirement !in locked
    ensures AgentClaim(db, cat, now, actor, locked, db.claims[c].requirement, lease, newId, t) == (db, Ok(c))
  {
    assert Mirrored(db, db.claims[c].requirement);
  }

  /** A renewal counts, moves the expiry to a lease from now, in the row and in the requirement, and
      touches nothing else. */
  lemma RenewalExtends(db: Db, now: Time, actor: Actor, id: ReqId, lease: Interval)
    requires Consistent(db) && AgentClaimRenew(db, now, actor, id, lease).1.Ok?
    ensures var (db', res) := AgentClaimRenew(db, now, actor, id, lease);
      && res == Ok(now + lease) && id in db.reqs && id in db'.reqs && db.reqs[id].claimId.Some?
      && var c := db.reqs[id].claimId.value;
         && c in db.claims && c in db'.claims && Current(db', c)
         && (forall later: Time :: Live(db'.claims[c], later) <==> later < now + lease)
         && db'.claims[c] == db.claims[c].(expiresAt := now + lease, renewals := db.claims[c].renewals + 1)
         && db'.reqs[id] == db.reqs[id].(expiresAt := Some(now + lease)) && db'.members == db.members
         && db'.reqs.Keys == db.reqs.Keys && db'.claims.Keys == db.claims.Keys
         && (forall d <- db.claims :: d != c ==> d in db'.claims && db'.claims[d] == db.claims[d])
         && (forall other <- db.reqs :: other != id ==> other in db'.reqs && db'.reqs[other] == db.reqs[other])
  {
    assert Mirrored(db, id);
  }

  /** A release goes through exactly for a claimed requirement and a caller that is no other agent. It
      completes the current row, clears the lease columns, ends the membership, puts the status back after an
      abandoned, failed or expired lease and leaves it after any other, and touches nothing else. */
  lemma ReleaseEndsOne(db: Db, now: Time, actor: Actor, id: ReqId, state: string, t: Transition)
    requires Consistent(db)
    ensures var (db', res) := AgentRelease(db, now, actor, id, state, t);
      && (res.Ok? <==>
            && id in db.reqs && db.reqs[id].claimId.Some?
            && (actor.Agent? ==> db.reqs[id].claimedBy == Some(actor.agentId)))
      && (res.Err? ==>
            db' == db && res.error == if id in db.reqs && db.reqs[id].claimId.Some? then OwnedByAnother else NotClaimed)
      && (res.Ok? ==>
            && id in db'.reqs && AllOrNone(db'.reqs[id]) && db'.reqs[id].claimId == None
            && (id, db.reqs[id].claimedBy.value) !in db'.members
            && var c := db.reqs[id].claimId.value;
               && c in db.claims && c in db'.claims && db.claims[c].previousStatus.Some?
               && db'.claims[c] == db.claims[c].(completedAt := Some(now), completionState := Some(state))
               && db'.reqs[id].status == (if state in {"abandoned", "failed", "expired"} && t.MovesTo?
                                          then db.claims[c].previousStatus.value else db.reqs[id].status)
               && (forall d <- db.claims :: d != c ==> d in db'.claims && db'.claims[d] == db.claims[d])
               && (forall other <- db.reqs :: other != id ==> other in db'.reqs && db'.reqs[other] == db.reqs[other])
               && (forall m <- db.members :: m.0 != id ==> m in db'.members))
  {
    if id in db.reqs {
      assert Mirrored(db, id);
      if db.reqs[id].claimId.Some? { assert Current(db, db.reqs[id].claimId.value); }
    }
  }

  /** What another party tries. */
  ghost predicate Foreign(op: Op, agent: AgentId) {
    match op
    case TryClaim(actor, _, _, _, _, _) => actor.Id() != Some(agent)
    case ClaimNext(actor, _, _, _, _, _, _) => actor.Id() != Some(agent)
    case Renew(actor, _, _) => actor.Id() != Some(agent)
    case Release(actor, _, _, _) => actor.Agent? && actor.agentId != agent
    case Expire(_, _) => true
    case Other(_, _) => true
  }

  lemma ForeignStepLeavesLiveLease(db: Db, cat: Catalog, e: Event, c: ClaimId)
    requires Consistent(db) && OrphansLapsed(db, e.at) && c in db.claims
    requires Live(db.claims[c], e.at) && Foreign(e.op, db.claims[c].agent)
    ensures var db' := Step(db, cat, e); c in db'.claims && db'.claims[c] == db.claims[c] && Current(db', c)
  {
    var id := db.claims[c].requirement;
    assert Mirrored(db, id) && Current(db, c);
    match e.op
    case TryClaim(_, _, _, _, _, _) =>
    case ClaimNext(_, _, _, _, _, _, _) =>
    case Renew(actor, other, _) => if other in db.reqs { assert Mirrored(db, other); }
    case Release(actor, other, state, t) => if other in db.reqs { assert Mirrored(db, other); }
    case Expire(locked, ts) => LapsedAreClaimed(db, e.at, locked);
    case Other(_, _) =>
  }

  /** While a lease has not lapsed, nothing that other agents, the sweeper or the rest of the database
      do, in any number and order, touches its row or takes the requirement away. */
  lemma {:induction false} LiveLeaseIsUntouchable(db: Db, cat: Catalog, events: seq<Event>, from: Time, c: ClaimId)
    requires Consistent(db) && OrphansLapsed(db, from) && Chronological(from, events) && c in db.claims
    requires Live(db.claims[c], End(from, events)) && Current(db, c)
    requires forall e <- events :: Foreign(e.op, db.claims[c].agent)
    ensures var db' := Run(db, cat, events); c in db'.claims && db'.claims[c] == db.claims[c] && Current(db', c)
    decreases |events|
  {
    if events != [] {
      var e := events[0];
      EndIsLast(e.at, events[1..]);
      StepKeeps(db, cat, e);
      ForeignStepLeavesLiveLease(db, cat, e, c);
      LiveLeaseIsUntouchable(Step(db, cat, e), cat, events[1..], e.at, c);
    }
  }

  lemma {:induction false} EndIsLast(from: Time, events: seq<Event>)
    requires Chronological(from, events)
    ensures from <= End(from, events)
    decreases |events|
  {
    if events != [] { EndIsLast(events[0].at, events[1..]); }
  }

  /** `db2` is a state in which the lease granted on `db` as `newId` is still the current one, however
      much has happened since. */
  ghost predicate StillLeased(db: Db, cat: Catalog, now: Time, actor: Actor, locked: set<ReqId>, id: ReqId,
                              lease: Interval, newId: ClaimId, t: Transition, events: seq<Event>, db2: Db)
    requires Consistent(db)
  {
    var (db1, res) := AgentClaim(db, cat, now, actor, locked, id, lease, newId, t);
    && newId !in db.claims && res == Ok(newId)
    && Consistent(db1) && db2 == Run(db1, cat, events)
    && id in db2.reqs && db2.reqs[id].claimId == Some(newId)
  }

  /** A lease that is given back abandoned, failed or expired puts the requirement back where it was claimed
      from, if the workflow lets it; one that is given back otherwise leaves it where it is by then. */
  lemma ReleaseRestoresStatus(db: Db, cat: Catalog, now: Time, actor: Actor, locked: set<ReqId>, id: ReqId,
                              lease: Interval, newId: ClaimId, t: Transition, events: seq<Event>, db2: Db,
                              later: Time, who: Actor, state: string, t2: Transition)
    requires Consistent(db) && StillLeased(db, cat, now, actor, locked, id, lease, newId, t, events, db2)
    requires t2.MovesTo?
    ensures var (db3, res) := AgentRelease(db2, later, who, id, state, t2);
      res.Ok? ==>
        && id in db2.reqs && id in db3.reqs && db3.reqs[id].claimId == None
        && db3.reqs[id].status == (if state == "abandoned" || state == "failed" || state == "expired"
                                   then db.reqs[id].status else db2.reqs[id].status)
  {
    RunEvolves(AgentClaim(db, cat, now, actor, locked, id, lease, newId, t).0, cat, events);
  }

  /** So does a lease that is swept. */
  lemma SweepRestoresStatus(db: Db, cat: Catalog, now: Time, actor: Actor, locked: set<ReqId>, id: ReqId,
                            lease: Interval, newId: ClaimId, t: Transition, events: seq<Event>, db2: Db,
                            later: Time, locked2: set<ReqId>, ts: ReqId -> Transition)
    requires Consistent(db) && StillLeased(db, cat, now, actor, locked, id, lease, newId, t, events, db2)
    requires Overran(db2, later, locked2, id) && ts(id).MovesTo?
    ensures var db3 := AgentClaimsExpire(db2, later, locked2, ts).0;
      id in db3.reqs && db3.reqs[id].status == db.reqs[id].status && db3.reqs[id].claimId == None
  {
    RunEvolves(AgentClaim(db, cat, now, actor, locked, id, lease, newId, t).0, cat, events);
  }

  /** The lease of this requirement ended before now, and nobody has the row locked. */
  ghost predicate Overran(db: Db, now: Time, locked: set<ReqId>, id: ReqId) {
    id in db.reqs && id !in locked && db.reqs[id].expiresAt.Some? && db.reqs[id].expiresAt.value < now
  }

  /** The sweeper releases exactly the unlocked leases that ended before now, leaves every other row alone,
      counts them, and finds nothing more to do afterwards. */
  lemma SweepIsExact(db: Db, now: Time, locked: set<ReqId>, ts: ReqId -> Transition)
    requires Consistent(db)
    ensures var (db', count) := AgentClaimsExpire(db, now, locked, ts);
      && count == |set id | id in db.reqs && Overran(db, now, locked, id)|
      && (forall id :: !Overran(db', now, locked, id))
      && db'.reqs.Keys == db.reqs.Keys && db'.claims.Keys == db.claims.Keys
      && (forall id <- db.reqs :: Overran(db, now, locked, id) ==>
            && db.reqs[id].claimId.Some? && db'.reqs[id].claimId == db'.reqs[id].claimedBy == None
            && db'.reqs[id].expiresAt == None)
      && (forall id <- db.reqs :: !Overran(db, now, locked, id) ==> db'.reqs[id] == db.reqs[id])
      && (forall m :: m in db'.members <==>
            m in db.members && !(Overran(db, now, locked, m.0) && db.reqs[m.0].claimedBy == Some(m.1)))
      && (forall c <- db.claims :: db'.claims[c] != db.claims[c] ==>
            && db.claims[c].completedAt == None && db.claims[c].expiresAt < now
            && db'.claims[c] == db.claims[c].(completedAt := Some(now), completionState := Some("expired")))
      && (forall id <- db.reqs :: Overran(db, now, locked, id) ==>
            && db.reqs[id].claimId.value in db.claims
            && db'.claims[db.reqs[id].claimId.value].completionState == Some("expired"))
  {
    LapsedAreClaimed(db, now, locked);
    assert (set id | id in db.reqs && Overran(db, now, locked, id)) == Lapsed(db, now, locked);
    forall id | id in db.reqs ensures Mirrored(db, id) {}
    var db' := AgentClaimsExpire(db, now, locked, ts).0;
    forall id | id in db.reqs ensures !Overran(db', now, locked, id) {
      if !Overran(db, now, locked, id) { assert db'.reqs[id] == db.reqs[id]; }
    }
  }

  /** The claim inside `agent_claim_next` can only fail if the caller is no agent, or holds a row for
      that very requirement acquired at this very instant. */
  lemma ClaimNextFailsIff(db: Db, cat: Catalog, now: Time, actor: Actor, locked: set<ReqId>, space: SpaceId,
                          id: ReqId, lease: Interval, newId: ClaimId, t: Transition)
    requires Consistent(db) && HeadOfQueue(db, cat, now, locked, space, id) && newId !in db.claims
    ensures AgentClaim(db, cat, now, actor, locked, id, lease, newId, t).1.Err? <==>
      !actor.Agent? || exists c ::
        && c in db.claims && db.claims[c].requirement == id
        && db.claims[c].agent == actor.agentId && db.claims[c].acquiredAt == now
    ensures AgentClaim(db, cat, now, actor, locked, id, lease, newId, t).1.Ok? ==>
      AgentClaim(db, cat, now, actor, locked, id, lease, newId, t)
          == (Granted(db, cat, now, actor.agentId, id, lease, newId, t), Ok(newId))
  {
    assert Mirrored(db, id);
  }

  /** It does fail: claim, give back, and ask for the next one within one transaction. */
  lemma ClaimNextCanFail()
    ensures exists db, cat: Catalog, now, id, newId ::
              && Consistent(db) && newId !in db.claims && HeadOfQueue(db, cat, now, {}, 0, id)
              && AgentClaim(db, cat, now, Agent(7), {}, id, 30, newId, Raises).1 == Err(DuplicateRow)
  {
    var cat := Catalog(_ => true, _ => 1, _ => true, None);
    var r := Req(0, 3, 0, 0, 0.0, 0, None, None, None);
    var db0 := Db(map[1 := r], map[], {});
    var db1 := AgentClaim(db0, cat, 5, Agent(7), {}, 1, 30, 100, Raises).0;
    GrantedKeeps(db0, cat, 5, 7, 1, 30, 100, Raises);
    var db2 := AgentRelease(db1, 5, Agent(7), 1, "abandoned", Raises).0;
    EndedKeeps(db1, 5, {1}, "abandoned", _ => Raises);
    assert db2.claims[100].acquiredAt == 5;
    assert Eligible(db2, cat, 5, {}, 0, 1);
    assert HeadOfQueue(db2, cat, 5, {}, 0, 1);
    assert AgentClaim(db2, cat, 5, Agent(7), {}, 1, 30, 101, Raises).1 == Err(DuplicateRow);
  }

  /** Renewing asks only whether the lease is still yours, not whether it has lapsed: a lapsed lease
      that nobody has taken over or swept comes back to life. */
  lemma RenewRevives(db: Db, now: Time, actor: Actor, id: ReqId, lease: Interval)
    requires Consistent(db)
    ensures AgentClaimRenew(db, now, actor, id, lease).1.Ok? <==>
      exists c :: c in db.claims && Current(db, c) && db.claims[c].requirement == id
          && (match actor case Agent(me) => db.claims[c].agent == me case User(me) => db.claims[c].agent == me
              case System => false)
    ensures AgentClaimRenew(db, now, actor, id, lease).1.Ok? && lease > 0 ==>
      var db' := AgentClaimRenew(db, now, actor, id, lease).0;
      exists c :: c in db'.claims && Current(db', c) && db'.claims[c].requirement == id && Live(db'.claims[c], now)
  {
    if id in db.reqs {
      assert Mirrored(db, id);
      if db.reqs[id].claimId.Some? {
        assert Current(db, db.reqs[id].claimId.value);
        var db' := AgentClaimRenew(db, now, actor, id, lease).0;
        assert Current(db', db.reqs[id].claimId.value);
      }
    }
  }

  /** A lapsed lease that is renewed, in tables that a claim has made. */
  lemma RenewingALapsedLease()
    ensures exists db, now, id, c ::
              && Consistent(db) && c in db.claims && !Live(db.claims[c], now)
              && AgentClaimRenew(db, now, Agent(7), id, 30).1.Ok?
              && c in AgentClaimRenew(db, now, Agent(7), id, 30).0.claims
              && Live(AgentClaimRenew(db, now, Agent(7), id, 30).0.claims[c], now)
  {
    var cat := Catalog(_ => true, _ => 1, _ => true, None);
    var db0 := Db(map[1 := Req(0, 3, 0, 0, 0.0, 0, None, None, None)], map[], {});
    var db := AgentClaim(db0, cat, 5, Agent(7), {}, 1, 30, 100, Raises).0;
    GrantedKeeps(db0, cat, 5, 7, 1, 30, 100, Raises);
    assert Consistent(db);
    var c: ClaimId := 100;
    assert c in db.claims && !Live(db.claims[c], 50);
    RenewalExtends(db, 50, Agent(7), 1, 30);
    var now: Time, id: ReqId := 50, 1;
    assert Live(AgentClaimRenew(db, now, Agent(7), id, 30).0.claims[c], now);
  }
}
