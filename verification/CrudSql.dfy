/** The statements the CRUD engine sends, and what PostgreSQL makes of them. A statement
    names columns and numbered placeholders; the values come separately. */
module CrudSql {
  import opened Wrappers
  import opened CrudManifest

  datatype Cell = Null | Text(s: string) | Time(at: nat) | Number(x: real) | Flag(b: bool)

  type Row = map<string, Cell>

  /** A placeholder `$n`, counted from one, or the clock. */
  datatype Source = Param(n: nat) | Now

  datatype Assign = Assign(col: string, source: Source)

  datatype Statement =
    | Insert(cols: seq<string>, values: seq<Source>)
    | Update(sets: seq<Assign>, key: string, param: nat)
    | Delete(key: string, param: nat)

  datatype SqlError = Syntax | UnknownColumn | ColumnTwice | Arguments

  /** The columns of the table, and its rows by the text of their id. */
  datatype Db = Db(columns: set<string>, rows: map<string, Row>)

  /** What the database supplies itself. */
  datatype Env = Env(newId: string, now: nat)

  // ---- checks made before anything runs -----------------------------------------------

  predicate NoDuplicates(cols: seq<string>) {
    forall i, j | 0 <= i < j < |cols| :: cols[i] != cols[j]
  }

  function Targets(sets: seq<Assign>): (cols: seq<string>)
    ensures |cols| == |sets| && forall i | 0 <= i < |sets| :: cols[i] == sets[i].col
  {
    seq(|sets|, i requires 0 <= i < |sets| => sets[i].col)
  }

  /** Every placeholder has an argument and every argument a placeholder. */
  predicate Bound(sources: seq<Source>, args: seq<Cell>) {
    && (forall i | 0 <= i < |sources| && sources[i].Param? :: 1 <= sources[i].n <= |args|)
    && (forall k | 1 <= k <= |args| :: Param(k) in sources)
  }

  function SetSources(sets: seq<Assign>): (sources: seq<Source>)
    ensures |sources| == |sets| && forall i | 0 <= i < |sets| :: sources[i] == sets[i].source
  {
    seq(|sets|, i requires 0 <= i < |sets| => sets[i].source)
  }

  function Checked(db: Db, s: Statement, args: seq<Cell>): Option<SqlError> {
    match s
    case Insert(cols, values) =>
      if cols == [] || |cols| != |values| then Some(Syntax)
      else if exists c :: c in cols && c !in db.columns then Some(UnknownColumn)
      else if !NoDuplicates(cols) then Some(ColumnTwice)
      else if !Bound(values, args) then Some(Arguments)
      else None
    case Update(sets, key, param) =>
      if sets == [] then Some(Syntax)
      else if key !in db.columns || exists c :: c in Targets(sets) && c !in db.columns then Some(UnknownColumn)
      else if !NoDuplicates(Targets(sets)) then Some(ColumnTwice)
      else if !Bound(SetSources(sets) + [Param(param)], args) then Some(Arguments)
      else None
    case Delete(key, param) =>
      if key !in db.columns then Some(UnknownColumn)
      else if !Bound([Param(param)], args) then Some(Arguments)
      else None
  }

  // ---- effect --------------------------------------------------------------------------------

  function IndexOf(cols: seq<string>, c: string): (i: nat)
    ensures i <= |cols|
    ensures i < |cols| ==> cols[i] == c
    ensures forall j | 0 <= j < i :: cols[j] != c
    ensures c in cols <==> i < |cols|
  {
    if cols == [] || cols[0] == c then 0 else 1 + IndexOf(cols[1..], c)
  }

  function ValueOf(source: Source, args: seq<Cell>, env: Env): Cell {
    match source
    case Now => Time(env.now)
    case Param(n) => if 1 <= n <= |args| then args[n - 1] else Null
  }

  /** A column the statement leaves out gets its default. */
  function Default(c: string, env: Env): Cell {
    if c == ID then Text(env.newId)
    else if c == CREATED_AT || c == UPDATED_AT then Time(env.now)
    else Null
  }

  function Inserted(columns: set<string>, cols: seq<string>, values: seq<Source>, args: seq<Cell>, env: Env): Row
    requires |cols| == |values|
  {
    map c | c in columns ::
      if c in cols then ValueOf(values[IndexOf(cols, c)], args, env) else Default(c, env)
  }

  function Assigned(row: Row, sets: seq<Assign>, args: seq<Cell>, env: Env): Row {
    map c | c in row ::
      if c in Targets(sets) then ValueOf(sets[IndexOf(Targets(sets), c)].source, args, env) else row[c]
  }

  predicate Meets(row: Row, key: string, value: Cell) {
    key in row && value != Null && row[key] == value
  }

  function Updated(rows: map<string, Row>, key: string, value: Cell, sets: seq<Assign>, args: seq<Cell>,
                   env: Env): map<string, Row> {
    map id | id in rows :: if Meets(rows[id], key, value) then Assigned(rows[id], sets, args, env) else rows[id]
  }

  function Without(rows: map<string, Row>, key: string, value: Cell): map<string, Row> {
    map id | id in rows && !Meets(rows[id], key, value) :: rows[id]
  }

  function Execute(db: Db, s: Statement, args: seq<Cell>, env: Env): Result<Db, SqlError> {
    if Checked(db, s, args).Some? then Err(Checked(db, s, args).value)
    else
      match s
      case Insert(cols, values) =>
        Ok(db.(rows := db.rows[env.newId := Inserted(db.columns, cols, values, args, env)]))
      case Update(sets, key, param) =>
        Ok(db.(rows := Updated(db.rows, key, ValueOf(Param(param), args, env), sets, args, env)))
      case Delete(key, param) =>
        Ok(db.(rows := Without(db.rows, key, ValueOf(Param(param), args, env))))
  }

  // ---- reading ---------------------------------------------------------------------------------

  datatype Filter = Filter(key: string, param: nat)

  /** SELECT cols [WHERE key = $param] ORDER BY created_at DESC LIMIT limit OFFSET offset. */
  datatype Query = Query(cols: seq<string>, filter: Option<Filter>, limit: nat, offset: nat)

  function Matching(db: Db, filter: Option<Filter>, args: seq<Cell>): set<string> {
    set id | id in db.rows &&
      (filter.None? || Meets(db.rows[id], filter.value.key, ValueOf(Param(filter.value.param), args, Env("", 0))))
  }

  function CreatedAt(db: Db, id: string): nat {
    if id in db.rows && CREATED_AT in db.rows[id] && db.rows[id][CREATED_AT].Time?
    then db.rows[id][CREATED_AT].at
    else 0
  }

  /** An order in which the database may deliver the matching rows: newest first, rows
      of the same instant in any order. */
  ghost predicate Delivers(db: Db, filter: Option<Filter>, args: seq<Cell>, order: seq<string>) {
    && (forall id :: id in order <==> id in Matching(db, filter, args))
    && (forall i, j | 0 <= i < j < |order| ::
          order[i] != order[j] && CreatedAt(db, order[i]) >= CreatedAt(db, order[j]))
  }

  function Slice(order: seq<string>, limit: nat, offset: nat): seq<string> {
    if offset >= |order| then []
    else if offset + limit >= |order| then order[offset..]
    else order[offset..offset + limit]
  }

  function Projected(row: Row, cols: seq<string>): Row {
    map c | c in row && c in cols :: row[c]
  }

  function Fetched(db: Db, cols: seq<string>, ids: seq<string>): (rows: seq<Row>)
    requires forall i | 0 <= i < |ids| :: ids[i] in db.rows
  {
    seq(|ids|, i requires 0 <= i < |ids| => Projected(db.rows[ids[i]], cols))
  }

  /** What the query answers when the matching rows come in this order. */
  function Answer(db: Db, q: Query, args: seq<Cell>, order: seq<string>): (rows: seq<Row>)
    requires Delivers(db, q.filter, args, order)
  {
    var ids := Slice(order, q.limit, q.offset);
    assert forall i | 0 <= i < |ids| :: ids[i] in order;
    Fetched(db, q.cols, ids)
  }
}
