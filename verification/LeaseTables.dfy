/** The lease functions of db/agent/agent_functions.sql as the statements that update the tables,
    each proved to do what its counterpart in module Lease says. */
module LeaseTables {
  import opened Wrappers
  import opened Lease
  import Sets

  /** The tables as mutable state, and the SQL functions as the statements that update them. */
  class LeaseTables {
    var reqs: map<ReqId, Req>
    var claims: map<ClaimId, Claim>
    var members: set<(ReqId, AgentId)>
    const cat: Catalog

    ghost function Contents(): Db reads this { Db(reqs, claims, members) }

    ghost predicate Valid() reads this { Consistent(Contents()) }

    constructor (cat: Catalog)
      ensures Valid() && this.cat == cat && Contents() == Db(map[], map[], {})
    {
      this.cat := cat;
      reqs, claims, members := map[], map[], {};
    }

    method AgentClaim(now: Time, actor: Actor, locked: set<ReqId>, id: ReqId, lease: Interval, newId: ClaimId,
        t: Transition)
      returns (res: Result<ClaimId>)
      requires Valid()
      modifies this
      ensures Valid()
      ensures (Contents(), res) == Lease.AgentClaim(old(Contents()), cat, now, actor, locked, id, lease, newId, t)
    {
      if !actor.Agent? { return Err(NotAnAgent); }
      if id !in reqs || id in locked { return Err(Unavailable); }
      var r := reqs[id];
      assert Mirrored(Contents(), id);
      if r.claimedBy.Some? && r.expiresAt.value > now {
        if r.claimedBy == Some(actor.agentId) { return Ok(r.claimId.value); }
        return Err(HeldByAnother);
      }
      if !cat.claimable(r.status) { return Err(StatusNotClaimable); }
      if !Insertable(Db(reqs, claims, members), newId, id, actor.agentId, now) { return Err(DuplicateRow); }
      GrantedKeeps(Contents(), cat, now, actor.agentId, id, lease, newId, t);
      claims := claims[newId := Claim(id, actor.agentId, now, now + lease, Some(r.status), 0, None, None)];
      reqs := reqs[id := r.(claimId := Some(newId), claimedBy := Some(actor.agentId), expiresAt := Some(now + lease))];
      members := members + {(id, actor.agentId)};
      if cat.inProgress.Some? {
        reqs := reqs[id := Transitioned(reqs[id], cat.inProgress.value, t)];
      }
      assert Contents() == Granted(old(Contents()), cat, now, actor.agentId, id, lease, newId, t);
      res := Ok(newId);
    }

    /** A requirement that an agent of this space may take: nobody holds it, or the lease has run out before. */
    ghost predicate Free(r: Req, now: Time, space: SpaceId) {
      && r.space == space && cat.claimable(r.status) && cat.agentEnabled(r.tracker)
      && (r.claimedBy == None || (r.expiresAt.Some? && r.expiresAt.value < now))
    }

    /** Takes the free requirement of greatest weight, then least board position, then least age. */
    method AgentClaimNext(now: Time, actor: Actor, locked: set<ReqId>, space: SpaceId, lease: Interval,
                          newId: ClaimId, t: Transition)
      returns (picked: Option<ReqId>, res: Result<ClaimId>)
      requires Valid()
      modifies this
      ensures Valid()
      ensures picked == None <==> forall id :: !Eligible(old(Contents()), cat, now, locked, space, id)
      ensures picked == None ==> Contents() == old(Contents())
      ensures picked.Some? ==>
        && HeadOfQueue(old(Contents()), cat, now, locked, space, picked.value)
        && (Contents(), res)
           == Lease.AgentClaim(old(Contents()), cat, now, actor, locked, picked.value, lease, newId, t)
      ensures picked.Some? ==>
        && picked.value in old(reqs) && Free(old(reqs)[picked.value], now, space) && picked.value !in locked
        && forall other <- old(reqs) :: Free(old(reqs)[other], now, space) && other !in locked ==>
             var x, y := old(reqs)[picked.value], old(reqs)[other];
             && cat.weight(x.priority) >= cat.weight(y.priority)
             && (cat.weight(x.priority) == cat.weight(y.priority) ==> x.boardPosition <= y.boardPosition)
             && (cat.weight(x.priority) == cat.weight(y.priority) && x.boardPosition == y.boardPosition ==>
                   x.createdAt <= y.createdAt)
      ensures picked == None ==> forall id <- old(reqs) :: Free(old(reqs)[id], now, space) ==> id in locked
    {
      var db := Db(reqs, claims, members);
      var queue := set id | id in reqs && Eligible(db, cat, now, locked, space, id);
      if queue == {} {
        assert forall id :: Eligible(db, cat, now, locked, space, id) ==> id in queue;
        forall id <- reqs | Free(reqs[id], now, space) ensures id in locked {
          assert id !in queue;
        }
        return None, Err(Unavailable);
      }
      QueueHasHead(db, cat, queue);
      var id :| id in queue && forall other <- queue :: NotAfter(cat, reqs[id], reqs[other]);
      picked := Some(id);
      res := AgentClaim(now, actor, locked, id, lease, newId, t);
    }

    method AgentClaimRenew(now: Time, actor: Actor, id: ReqId, lease: Interval) returns (res: Result<Time>)
      requires Valid()
      modifies this
      ensures Valid()
      ensures (Contents(), res) == Lease.AgentClaimRenew(old(Contents()), now, actor, id, lease)
    {
      var exp := now + lease;
      if id !in reqs || actor.Id() == None || reqs[id].claimedBy != actor.Id() { return Err(NoLeaseOfYours); }
      assert Mirrored(Contents(), id);
      RenewedKeeps(Contents(), now, actor, id, lease);
      reqs := reqs[id := reqs[id].(expiresAt := Some(exp))];
      var c := reqs[id].claimId.value;
      claims := claims[c := claims[c].(expiresAt := exp, renewals := claims[c].renewals + 1)];
      res := Ok(exp);
    }

    method AgentRelease(now: Time, actor: Actor, id: ReqId, state: string, t: Transition) returns (res: Result<()>)
      requires Valid()
      modifies this
      ensures Valid()
      ensures (Contents(), res) == Lease.AgentRelease(old(Contents()), now, actor, id, state, t)
      ensures res.Ok? ==>
        && id in old(reqs) && id in reqs && reqs[id].claimId == None
        && old(reqs)[id].claimId.Some? && old(reqs)[id].claimId.value in old(claims)
        && var was := old(claims)[old(reqs)[id].claimId.value].previousStatus;
           && was.Some?
           && reqs[id].status == (if state in {"abandoned", "failed", "expired"} && t.MovesTo?
                                  then was.value else old(reqs)[id].status)
    {
      ReleaseEndsOne(Contents(), now, actor, id, state, t);
      if id !in reqs || reqs[id].claimId == None { return Err(NotClaimed); }
      var r := reqs[id];
      if actor.Agent? && r.claimedBy != Some(actor.agentId) { return Err(OwnedByAnother); }
      assert Mirrored(Contents(), id);
      EndedKeeps(Contents(), now, {id}, state, _ => t);
      ghost var was := Contents();
      claims := claims[r.claimId.value := Completed(claims[r.claimId.value], now, state)];
      var c := claims[r.claimId.value];
      reqs := reqs[id := r.(claimId := None, claimedBy := None, expiresAt := None)];
      members := members - {(id, c.agent)};
      if Restores(state) && c.previousStatus.Some? {
        reqs := reqs[id := Transitioned(reqs[id], c.previousStatus.value, t)];
      }
      EndedOne(was, now, id, state, t);
      assert Contents() == Ended(was, now, {id}, state, _ => t);
      res := Ok(());
    }

    /** The sweeper, started on `was`, has released exactly the leases of `done`. */
    ghost predicate Swept(was: Db, now: Time, done: set<ReqId>, ts: ReqId -> Transition)
      reads this
    {
      && Valid() && Consistent(was)
      && (forall x <- done :: x in was.reqs && was.reqs[x].claimId.Some?)
      && Contents() == Ended(was, now, done, "expired", ts)
    }

    /** One turn of the sweeper's loop; no exception leaves it. */
    method SweepOne(now: Time, id: ReqId, ts: ReqId -> Transition, ghost was: Db, ghost done: set<ReqId>)
      requires Swept(was, now, done, ts) && id !in done && id in was.reqs && was.reqs[id].claimId.Some?
      modifies this
      ensures Swept(was, now, done + {id}, ts)
    {
      SweptMore(was, now, done, id, ts);
      var res := AgentRelease(now, System, id, "expired", ts(id));
      assert res.Ok?;
    }

    method AgentClaimsExpire(now: Time, locked: set<ReqId>, ts: ReqId -> Transition) returns (count: nat)
      requires Valid()
      modifies this
      ensures Valid()
      ensures (Contents(), count) == Lease.AgentClaimsExpire(old(Contents()), now, locked, ts)
    {
      ghost var was := Contents();
      var ids := Lapsed(Db(reqs, claims, members), now, locked);
      LapsedAreClaimed(was, now, locked);
      EndedNone(was, now, "expired", ts);
      count := Sweep(now, ids, ts, was);
    }

    method Sweep(now: Time, ids: set<ReqId>, ts: ReqId -> Transition, ghost was: Db) returns (count: nat)
      requires Swept(was, now, {}, ts)
      requires forall x <- ids :: x in was.reqs && was.reqs[x].claimId.Some?
      modifies this
      ensures Swept(was, now, ids, ts) && count == |ids|
    {
      var todo := ids;
      ghost var done: set<ReqId> := {};
      count := 0;
      while todo != {}
        invariant done !! todo && done + todo == ids && count + |todo| == |ids|
        invariant Swept(was, now, done, ts)
        decreases todo
      {
        ghost var one := Sets.Member(todo);
        var id :| id in todo;
        SweepOne(now, id, ts, was, done);
        done, todo, count := done + {id}, todo - {id}, count + 1;
      }
      assert done == ids;
    }
  }
}
