/** The handler itself: clauses and parameters appended filter by filter, then one page. */
module RequirementList {
  import opened Wrappers
  import opened RequirementQuery

  /** What the closures of the handler append to. `q` is the request and `k` the number of its filters
      that have been dealt with. */
  class Clauses {
    const env: Env
    const q: Query
    var where: seq<Sql>
    var args: seq<Value>

    ghost predicate Mean(k: nat)
      reads this
    {
      Means(env, q, where, args, k)
    }

    constructor (e: Env, request: Query)
      requires e.parse(e.space).Some?
      ensures env == e && q == request && Mean(0)
    {
      env, q, where, args := e, request, [Equals(Space, 1)], [Text(e.space)];
      SpaceIsRight(e, request);
    }

    /** arg: appends a value and names its parameter. */
    method Arg(v: Value, ghost k: nat) returns (n: nat)
      requires Mean(k)
      modifies this`args
      ensures Mean(k) && args == old(args) + [v] && n == |args|
    {
      AppendKeepsMeaning(env, q, where, args, k, v);
      args := args + [v];
      n := |args|;
    }

    method Where(e: Sql, ghost k: nat)
      requires Mean(k) && Right(env, q, args, e, k)
      modifies this`where
      ensures Mean(k + 1)
    {
      ClauseAddsFilter(env, q, where, args, k, e);
      where := where + [e];
    }

    ghost method Skip(k: nat)
      requires Mean(k) && Idle(env, q, k)
      ensures Mean(k + 1)
    {
      IdleAddsNothing(env, q, where, args, k);
    }

    /** The loop of uuidList. */
    method ValidIds(given: seq<string>) returns (ids: seq<string>)
      ensures ids == Uuids(env, given)
    {
      ids := [];
      var i := 0;
      while i < |given|
        invariant i <= |given| && ids == Uuids(env, given[..i])
      {
        assert given[..i + 1][..i] == given[..i];
        if IsUuid(env, given[i]) { ids := ids + [given[i]]; }
        i := i + 1;
      }
      assert given[..|given|] == given;
    }

    /** uuidList: ids that are no UUIDs are dropped, and the filter with them when none is left. */
    method UuidList(given: seq<string>, column: Column, ghost k: nat)
      requires k < 5 && given == ListIds(q, k) && column == ListColumn(k) && Mean(k)
      modifies this
      ensures Mean(k + 1)
    {
      var ids := ValidIds(given);
      if ids != [] {
        var n := Arg(Texts(ids), k);
        ListIsRight(env, q, args, k, n);
        Where(EqualsAny(column, n), k);
      } else {
        ListIsIdle(env, q, k);
        Skip(k);
      }
    }

    method Labels()
      requires Mean(5)
      modifies this
      ensures Mean(6)
    {
      if q.labels != [] {
        var n := Arg(Texts(q.labels), 5);
        Where(HasLabelIn(n), 5);
      } else {
        Skip(5);
      }
    }

    method Assignee()
      requires Mean(6) && env.parse(env.me).Some?
      modifies this
      ensures Mean(7)
    {
      if q.assignee == "me" {
        var n := Arg(Text(env.me), 6);
        Where(HasMember(n), 6);
      } else if q.assignee == "none" {
        Where(Not(HasAnyMember), 6);
      } else if IsUuid(env, q.assignee) {
        var n := Arg(Text(q.assignee), 6);
        Where(HasMember(n), 6);
      } else {
        Skip(6);
      }
    }

    method Reporter()
      requires Mean(7) && env.parse(env.me).Some?
      modifies this
      ensures Mean(8)
    {
      if q.reporter == "me" {
        var n := Arg(Text(env.me), 7);
        Where(Equals(Column.Reporter, n), 7);
      } else if IsUuid(env, q.reporter) {
        var n := Arg(Text(q.reporter), 7);
        Where(Equals(Column.Reporter, n), 7);
      } else {
        Skip(7);
      }
    }

    method OpenOrOverdue()
      requires Mean(8)
      modifies this
      ensures Mean(10)
    {
      if q.open == "true" {
        Where(Not(Closed), 8);
      } else if q.open == "false" {
        Where(Closed, 8);
      } else {
        Skip(8);
      }
      if q.overdue == "true" {
        OverdueIsRight(env, q, args);
        Where(And(DueBeforeToday, Not(Closed)), 9);
      } else {
        Skip(9);
      }
    }

    method Parent()
      requires Mean(10)
      modifies this
      ensures Mean(11)
    {
      if q.parent == "none" {
        Where(IsNull(Column.Parent), 10);
      } else if IsUuid(env, q.parent) {
        var n := Arg(Text(q.parent), 10);
        Where(Equals(Column.Parent, n), 10);
      } else {
        Skip(10);
      }
    }

    method Search()
      requires Mean(11)
      modifies this
      ensures Mean(12)
    {
      if q.search != "" {
        var p := Arg(Text(q.search), 11);
        SearchIsRight(env, q, args, p);
        Where(Parens(Or(RefLike(p), TitleLike(p))), 11);
      } else {
        Skip(11);
      }
    }
  }

  /** The condition and the parameters of the statement: under them, and whatever the row, the condition is
      true of exactly the rows that every filter lets through. */
  method BuildWhere(env: Env, q: Query) returns (cond: Sql, args: seq<Value>)
    requires env.parse(env.space).Some? && env.parse(env.me).Some?
    ensures Bound(env, args, cond)
    ensures forall row :: Eval(env, args, cond, row) == True <==> Matches(env, q, row)
  {
    var c := new Clauses(env, q);
    c.UuidList(q.statuses, Status, 0);
    c.UuidList(q.trackers, Tracker, 1);
    c.UuidList(q.priorities, Priority, 2);
    c.UuidList(q.categories, Category, 3);
    c.UuidList(q.milestones, Milestone, 4);
    c.Labels();
    c.Assignee();
    c.Reporter();
    c.OpenOrOverdue();
    c.Parent();
    c.Search();
    cond, args := JoinAnd(c.where), c.args;
    JoinIsBound(env, args, c.where);
    forall row: Row ensures Eval(env, args, cond, row) == True <==> Matches(env, q, row) {
      JoinMeansAll(env, args, c.where, row);
      assert AllTrue(env, args, c.where, row) <==> Passes(env, q, row, 12);
    }
  }

  // ------------------------------------------------------------------------------ page

  /** strconv.Atoi of a parameter, kept within bounds: the value within them that is nearest to what was
      asked for, or the default when nothing readable was. */
  function QueryInt(given: Option<int>, default: int, min: int, max: int): (v: int)
    requires min <= default <= max
    ensures min <= v <= max
    ensures given == None ==> v == default
    ensures given.Some? ==> forall x :: min <= x <= max ==> Distance(v, given.value) <= Distance(x, given.value)
  {
    if given == None then default
    else if given.value < min then min
    else if given.value > max then max
    else given.value
  }

  function Distance(x: int, y: int): nat { if x < y then y - x else x - y }

}
