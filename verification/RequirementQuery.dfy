/** ListRequirements of internal/handlers/requirements.go: filters turned into a WHERE clause with
    positional parameters, and one page of what it selects. */
module RequirementQuery {
  import opened Wrappers

  type Uuid = int
  type Day = int

  /** A row of v_requirement, with the labels and members that belong to it. */
  datatype Row = Row(
    space: Uuid, status: Uuid, tracker: Uuid, priority: Uuid, category: Option<Uuid>, milestone: Option<Uuid>,
    labels: set<Uuid>, members: set<Uuid>, reporter: Option<Uuid>, closed: bool, due: Option<Day>,
    parent: Option<Uuid>, refKey: Option<string>, title: string)

  datatype Column = Status | Tracker | Priority | Category | Milestone | Reporter | Parent | Space

  function Field(row: Row, c: Column): Option<Uuid> {
    match c
    case Status => Some(row.status)
    case Tracker => Some(row.tracker)
    case Priority => Some(row.priority)
    case Category => row.category
    case Milestone => row.milestone
    case Reporter => row.reporter
    case Parent => row.parent
    case Space => Some(row.space)
  }

  /** What the server is asked by whom and when: the meaning of a UUID in text and its canonical text,
      the two pattern matches of the text search, and the day. */
  datatype Env = Env(parse: string -> Option<Uuid>, text: Uuid -> string,
                     like: (string, string) -> bool, likeUnaccented: (string, string) -> bool,
                     today: Day, space: string, me: string)

  // ------------------------------------------------------------------------------ SQL

  datatype Truth = True | False | Unknown

  function Of(b: bool): Truth { if b then True else False }

  function Not3(a: Truth): Truth {
    match a case True => False case False => True case Unknown => Unknown
  }

  function And3(a: Truth, b: Truth): Truth {
    if a == False || b == False then False else if a == True && b == True then True else Unknown
  }

  function Or3(a: Truth, b: Truth): Truth {
    if a == True || b == True then True else if a == False && b == False then False else Unknown
  }

  /** A condition as written. `n` is the number of a parameter. */
  datatype Sql =
    | EqualsAny(column: Column, n: nat)
    | Equals(column: Column, n: nat)
    | IsNull(column: Column)
    | HasLabelIn(n: nat)
    | HasMember(n: nat)
    | HasAnyMember
    | Closed
    | DueBeforeToday
    | RefLike(n: nat)
    | TitleLike(n: nat)
    | Not(a: Sql)
    | And(a: Sql, b: Sql)
    | Or(a: Sql, b: Sql)
    | Parens(a: Sql)

  datatype Value = Text(text: string) | Texts(texts: seq<string>)

  /** The parameter is there, and is of the kind and form that its use casts it to. */
  predicate IsUuidAt(env: Env, args: seq<Value>, n: nat) {
    1 <= n <= |args| && args[n - 1].Text? && env.parse(args[n - 1].text).Some?
  }

  ghost predicate AreUuidsAt(env: Env, args: seq<Value>, n: nat) {
    1 <= n <= |args| && args[n - 1].Texts? && forall s <- args[n - 1].texts :: env.parse(s).Some?
  }

  ghost predicate Bound(env: Env, args: seq<Value>, e: Sql) {
    match e
    case EqualsAny(_, n) => AreUuidsAt(env, args, n)
    case Equals(_, n) => IsUuidAt(env, args, n)
    case HasLabelIn(n) => 1 <= n <= |args| && args[n - 1].Texts?
    case HasMember(n) => IsUuidAt(env, args, n)
    case RefLike(n) => 1 <= n <= |args| && args[n - 1].Text?
    case TitleLike(n) => 1 <= n <= |args| && args[n - 1].Text?
    case Not(a) => Bound(env, args, a)
    case And(a, b) => Bound(env, args, a) && Bound(env, args, b)
    case Or(a, b) => Bound(env, args, a) && Bound(env, args, b)
    case Parens(a) => Bound(env, args, a)
    case _ => true
  }

  ghost function Eval(env: Env, args: seq<Value>, e: Sql, row: Row): Truth
    requires Bound(env, args, e)
  {
    match e
    case EqualsAny(c, n) =>
      if Field(row, c) == None then Unknown else Of(exists s <- args[n - 1].texts :: env.parse(s) == Field(row, c))
    case Equals(c, n) => if Field(row, c) == None then Unknown else Of(env.parse(args[n - 1].text) == Field(row, c))
    case IsNull(c) => Of(Field(row, c) == None)
    case HasLabelIn(n) => Of(exists l <- row.labels :: env.text(l) in args[n - 1].texts)
    case HasMember(n) => Of(env.parse(args[n - 1].text).value in row.members)
    case HasAnyMember => Of(row.members != {})
    case Closed => Of(row.closed)
    case DueBeforeToday => if row.due == None then Unknown else Of(row.due.value < env.today)
    case RefLike(n) => if row.refKey == None then Unknown else Of(env.like(row.refKey.value, args[n - 1].text))
    case TitleLike(n) => Of(env.likeUnaccented(row.title, args[n - 1].text))
    case Not(a) => Not3(Eval(env, args, a, row))
    case And(a, b) => And3(Eval(env, args, a, row), Eval(env, args, b, row))
    case Or(a, b) => Or3(Eval(env, args, a, row), Eval(env, args, b, row))
    case Parens(a) => Eval(env, args, a, row)
  }

  /** Two conditions written one after the other with AND between them, as the grammar reads that: AND
      binds tighter than an OR on either side. */
  function AndText(a: Sql, b: Sql): Sql
    decreases a, b
  {
    if a.Or? then Or(a.a, AndText(a.b, b))
    else if b.Or? then Or(AndText(a, b.a), b.b)
    else And(a, b)
  }

  /** strings.Join(where, " AND ") */
  function JoinAnd(where: seq<Sql>): Sql
    requires where != []
  {
    if |where| == 1 then where[0] else AndText(JoinAnd(where[..|where| - 1]), where[|where| - 1])
  }

  // --------------------------------------------------------------------------- filters

  /** The filters of a request, lists already split. */
  datatype Query = Query(
    statuses: seq<string>, trackers: seq<string>, priorities: seq<string>, categories: seq<string>,
    milestones: seq<string>, labels: seq<string>, assignee: string, reporter: string, open: string,
    overdue: string, parent: string, search: string)

  predicate IsUuid(env: Env, s: string) { env.parse(s).Some? }

  function Uuids(env: Env, ids: seq<string>): (r: seq<string>)
    ensures forall s :: s in r <==> s in ids && IsUuid(env, s)
  {
    if ids == [] then []
    else Uuids(env, ids[..|ids| - 1]) + (if IsUuid(env, ids[|ids| - 1]) then [ids[|ids| - 1]] else [])
  }

  /** A list filter lets everything through when no id in it is a UUID. */
  ghost predicate InList(env: Env, ids: seq<string>, value: Option<Uuid>) {
    (exists s <- ids :: IsUuid(env, s)) ==> value.Some? && exists s <- ids :: env.parse(s) == value
  }

  ghost predicate Assigned(env: Env, q: Query, row: Row) {
    if q.assignee == "me" then env.parse(env.me).Some? && env.parse(env.me).value in row.members
    else if q.assignee == "none" then row.members == {}
    else IsUuid(env, q.assignee) ==> env.parse(q.assignee).value in row.members
  }

  ghost predicate Reported(env: Env, q: Query, row: Row) {
    if q.reporter == "me" then row.reporter.Some? && env.parse(env.me) == row.reporter
    else IsUuid(env, q.reporter) ==> env.parse(q.reporter) == row.reporter
  }

  ghost predicate Opened(q: Query, row: Row) {
    (q.open == "true" ==> !row.closed) && (q.open == "false" ==> row.closed)
  }

  ghost predicate Overdue(env: Env, q: Query, row: Row) {
    q.overdue == "true" ==> row.due.Some? && row.due.value < env.today && !row.closed
  }

  ghost predicate Under(env: Env, q: Query, row: Row) {
    if q.parent == "none" then row.parent == None else IsUuid(env, q.parent) ==> env.parse(q.parent) == row.parent
  }

  ghost predicate Labelled(env: Env, q: Query, row: Row) {
    q.labels != [] ==> exists l <- row.labels :: env.text(l) in q.labels
  }

  ghost predicate Found(env: Env, q: Query, row: Row) {
    q.search != "" ==>
      (row.refKey.Some? && env.like(row.refKey.value, q.search)) || env.likeUnaccented(row.title, q.search)
  }

  /** What the documentation of the endpoint promises of a row that is listed: the first `k` of its filters. */
  ghost predicate Passes(env: Env, q: Query, row: Row, k: nat) {
    && env.parse(env.space) == Some(row.space)
    && (k >= 1 ==> InList(env, q.statuses, Some(row.status)))
    && (k >= 2 ==> InList(env, q.trackers, Some(row.tracker)))
    && (k >= 3 ==> InList(env, q.priorities, Some(row.priority)))
    && (k >= 4 ==> InList(env, q.categories, row.category))
    && (k >= 5 ==> InList(env, q.milestones, row.milestone))
    && (k >= 6 ==> Labelled(env, q, row))
    && (k >= 7 ==> Assigned(env, q, row))
    && (k >= 8 ==> Reported(env, q, row))
    && (k >= 9 ==> Opened(q, row))
    && (k >= 10 ==> Overdue(env, q, row))
    && (k >= 11 ==> Under(env, q, row))
    && (k >= 12 ==> Found(env, q, row))
  }

  ghost predicate Matches(env: Env, q: Query, row: Row) { Passes(env, q, row, 12) }

  // --------------------------------------------------------------------------- meaning

  ghost predicate AllBound(env: Env, args: seq<Value>, where: seq<Sql>) {
    forall e <- where :: Bound(env, args, e)
  }

  ghost predicate AllTrue(env: Env, args: seq<Value>, where: seq<Sql>, row: Row)
    requires AllBound(env, args, where)
  {
    forall e <- where :: Eval(env, args, e, row) == True
  }

  /** The clauses so far select the rows that pass the first `k` filters, and every parameter that they
      name is the one that was meant. */
  ghost predicate Means(env: Env, q: Query, where: seq<Sql>, args: seq<Value>, k: nat) {
    && where != [] && (forall e <- where :: !e.Or?) && AllBound(env, args, where)
    && forall row :: AllTrue(env, args, where, row) <==> Passes(env, q, row, k)
  }

  /** Appending a parameter leaves every clause as it was. */
  lemma {:induction false} AppendKeepsEval(env: Env, args: seq<Value>, v: Value, e: Sql, row: Row)
    requires Bound(env, args, e)
    ensures Bound(env, args + [v], e) && Eval(env, args + [v], e, row) == Eval(env, args, e, row)
    decreases e
  {
    match e
    case Not(a) => AppendKeepsEval(env, args, v, a, row);
    case And(a, b) =>
      AppendKeepsEval(env, args, v, a, row);
      AppendKeepsEval(env, args, v, b, row);
    case Or(a, b) =>
      AppendKeepsEval(env, args, v, a, row);
      AppendKeepsEval(env, args, v, b, row);
    case Parens(a) => AppendKeepsEval(env, args, v, a, row);
    case _ =>
  }

  lemma {:induction false} AppendKeepsBound(env: Env, args: seq<Value>, v: Value, e: Sql)
    requires Bound(env, args, e)
    ensures Bound(env, args + [v], e)
    decreases e
  {
    match e
    case Not(a) => AppendKeepsBound(env, args, v, a);
    case And(a, b) =>
      AppendKeepsBound(env, args, v, a);
      AppendKeepsBound(env, args, v, b);
    case Or(a, b) =>
      AppendKeepsBound(env, args, v, a);
      AppendKeepsBound(env, args, v, b);
    case Parens(a) => AppendKeepsBound(env, args, v, a);
    case _ =>
  }

  lemma AppendKeepsMeaning(env: Env, q: Query, where: seq<Sql>, args: seq<Value>, k: nat, v: Value)
    requires Means(env, q, where, args, k)
    ensures Means(env, q, where, args + [v], k)
  {
    forall e <- where ensures Bound(env, args + [v], e) { AppendKeepsBound(env, args, v, e); }
    forall row ensures AllTrue(env, args + [v], where, row) <==> Passes(env, q, row, k) {
      assert AllTrue(env, args, where, row) <==> Passes(env, q, row, k);
      forall e <- where ensures Eval(env, args + [v], e, row) == Eval(env, args, e, row) {
        AppendKeepsEval(env, args, v, e, row);
      }
    }
  }

  /** A clause is right for the next filter: among rows that pass the others, it is true of those that
      pass this one too. */
  ghost predicate Right(env: Env, q: Query, args: seq<Value>, e: Sql, k: nat) {
    Bound(env, args, e) && !e.Or? && forall row :: Passes(env, q, row, k + 1) <==>
        Passes(env, q, row, k) && Eval(env, args, e, row) == True
  }

  /** Without a clause, the filter lets everything through. */
  ghost predicate Idle(env: Env, q: Query, k: nat) {
    forall row :: Passes(env, q, row, k + 1) <==> Passes(env, q, row, k)
  }

  lemma ClauseAddsFilter(env: Env, q: Query, where: seq<Sql>, args: seq<Value>, k: nat, e: Sql)
    requires Means(env, q, where, args, k) && Right(env, q, args, e, k)
    ensures Means(env, q, where + [e], args, k + 1)
  {
    var more := where + [e];
    assert forall x :: x in more <==> x in where || x == e;
    forall row ensures AllTrue(env, args, more, row) <==> Passes(env, q, row, k + 1) {
      assert AllTrue(env, args, where, row) <==> Passes(env, q, row, k);
      assert AllTrue(env, args, more, row) <==> AllTrue(env, args, where, row) && Eval(env, args, e, row) == True;
    }
  }

  lemma IdleAddsNothing(env: Env, q: Query, where: seq<Sql>, args: seq<Value>, k: nat)
    requires Means(env, q, where, args, k) && Idle(env, q, k)
    ensures Means(env, q, where, args, k + 1)
  {
    forall row ensures AllTrue(env, args, where, row) <==> Passes(env, q, row, k + 1) {
      assert AllTrue(env, args, where, row) <==> Passes(env, q, row, k);
    }
  }

  lemma {:induction false} JoinIsBound(env: Env, args: seq<Value>, where: seq<Sql>)
    requires where != [] && AllBound(env, args, where) && forall e <- where :: !e.Or?
    ensures !JoinAnd(where).Or? && Bound(env, args, JoinAnd(where))
    decreases |where|
  {
    var n := |where| - 1;
    assert where == where[..n] + [where[n]];
    if n > 0 { JoinIsBound(env, args, where[..n]); }
  }

  /** Joining with AND takes no clause apart, because none is an OR outside parentheses. */
  lemma {:induction false} JoinMeansAll(env: Env, args: seq<Value>, where: seq<Sql>, row: Row)
    requires where != [] && AllBound(env, args, where) && forall e <- where :: !e.Or?
    requires Bound(env, args, JoinAnd(where))
    ensures Eval(env, args, JoinAnd(where), row) == True <==> AllTrue(env, args, where, row)
    decreases |where|
  {
    var n := |where| - 1;
    var init := where[..n];
    assert where == init + [where[n]];
    if n > 0 {
      JoinIsBound(env, args, init);
      JoinMeansAll(env, args, init, row);
    }
  }

  // --------------------------------------------------------------------- single filters

  function ListIds(q: Query, k: nat): seq<string>
    requires k < 5
  {
    match k
    case 0 => q.statuses
    case 1 => q.trackers
    case 2 => q.priorities
    case 3 => q.categories
    case _ => q.milestones
  }

  function ListColumn(k: nat): Column
    requires k < 5
  {
    match k case 0 => Status case 1 => Tracker case 2 => Priority case 3 => Category case _ => Milestone
  }

  /** One of the five list filters, after those before it. */
  lemma ListIsNext(env: Env, q: Query, row: Row, k: nat)
    requires k < 5
    ensures Passes(env, q, row, k + 1) <==>
              Passes(env, q, row, k) && InList(env, ListIds(q, k), Field(row, ListColumn(k)))
  {
    hide InList;
  }

  lemma ListIsRight(env: Env, q: Query, args: seq<Value>, k: nat, n: nat)
    requires k < 5 && 1 <= n <= |args| && args[n - 1] == Texts(Uuids(env, ListIds(q, k)))
        && Uuids(env, ListIds(q, k)) != []
    ensures Right(env, q, args, EqualsAny(ListColumn(k), n), k)
  {
    hide Passes;
    var ids, c, e := ListIds(q, k), ListColumn(k), EqualsAny(ListColumn(k), n);
    assert Uuids(env, ids)[0] in ids;
    forall row: Row ensures Passes(env, q, row, k + 1) <==> Passes(env, q, row, k) && Eval(env, args, e, row) == True {
      ListIsNext(env, q, row, k);
      if InList(env, ids, Field(row, c)) {
        var s :| s in ids && env.parse(s) == Field(row, c);
        assert s in Uuids(env, ids);
      }
    }
  }

  lemma ListIsIdle(env: Env, q: Query, k: nat)
    requires k < 5 && Uuids(env, ListIds(q, k)) == []
    ensures Idle(env, q, k)
  {
    var ids := ListIds(q, k);
    assert forall s <- ids :: IsUuid(env, s) ==> s in Uuids(env, ids);
  }

  lemma SearchIsRight(env: Env, q: Query, args: seq<Value>, n: nat)
    requires 1 <= n <= |args| && args[n - 1] == Text(q.search) && q.search != ""
    ensures Right(env, q, args, Parens(Or(RefLike(n), TitleLike(n))), 11)
  {
    var e := Or(RefLike(n), TitleLike(n));
    assert Bound(env, args, RefLike(n)) && Bound(env, args, TitleLike(n));
    assert Bound(env, args, e);
    forall row ensures Eval(env, args, Parens(e), row) == True <==> Found(env, q, row) {
      assert Eval(env, args, e, row) == Or3(Eval(env, args, RefLike(n), row), Eval(env, args, TitleLike(n), row));
    }
  }

  lemma OverdueIsRight(env: Env, q: Query, args: seq<Value>)
    requires q.overdue == "true"
    ensures Right(env, q, args, And(DueBeforeToday, Not(Closed)), 9)
  {
    var open := Not(Closed);
    assert Bound(env, args, open);
    forall row ensures Eval(env, args, And(DueBeforeToday, open), row) == True <==> Overdue(env, q, row) {
      assert Eval(env, args, open, row) == Not3(Eval(env, args, Closed, row));
    }
  }

  lemma SpaceIsRight(env: Env, q: Query)
    requires env.parse(env.space).Some?
    ensures Means(env, q, [Equals(Space, 1)], [Text(env.space)], 0)
  {
    var where, args := [Equals(Space, 1)], [Text(env.space)];
    assert forall e :: e in where <==> e == where[0];
    forall row ensures AllTrue(env, args, where, row) <==> Passes(env, q, row, 0) {
      assert AllTrue(env, args, where, row) <==> Eval(env, args, where[0], row) == True;
    }
  }

}
