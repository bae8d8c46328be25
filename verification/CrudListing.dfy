/** Listing a CRUD table page by page: which rows a request shows, whose they are, and
    what the pages together amount to. */
module CrudListing {
  import opened Wrappers
  import opened Crypto
  import opened CrudManifest
  import opened CrudSql
  import opened CrudRequests
  import opened CrudRows
  import opened CrudRuns

  const DEFAULT_PAGE_SIZE: nat := 50
  const MAX_PAGE_SIZE: nat := 200
  const MAX_PAGE: nat := 100000

  function PageSize(given: Option<int>): nat {
    if given.None? || given.value <= 0 then DEFAULT_PAGE_SIZE
    else if given.value > MAX_PAGE_SIZE then MAX_PAGE_SIZE
    else given.value
  }

  function PageNumber(given: Option<int>): nat {
    if given.None? || given.value <= 0 then 1 else given.value
  }

  /** The rows a list shows to `user`: with owner scoping the user's own, else all. */
  function Visible(crud: Crud, db: Db, user: string): map<string, Row> {
    if crud.ownerScoped then RowsOf(db, user) else db.rows
  }

  function SelectColumns(crud: Crud): (cols: seq<string>)
    ensures forall c :: c in cols <==> c in Columns(crud)
  {
    var implicit := [ID, CREATED_AT, UPDATED_AT] + (if crud.ownerScoped then [CREATED_BY] else []);
    var names := seq(|crud.fields|, i requires 0 <= i < |crud.fields| => crud.fields[i].name);
    assert forall i | 0 <= i < |crud.fields| :: names[i] == crud.fields[i].name;
    implicit + names
  }

  function OwnFilter(crud: Crud): Option<Filter> {
    if crud.ownerScoped then Some(Filter(CREATED_BY, 1)) else None
  }

  function OwnArgs(crud: Crud, user: string): seq<Cell> {
    if crud.ownerScoped then [Text(user)] else []
  }

  /** The visible rows, each once, newest first. */
  ghost predicate Selects(crud: Crud, db: Db, user: string, order: seq<string>) {
    && (forall i | 0 <= i < |order| :: order[i] in db.rows)
    && (forall id :: id in order <==> id in Visible(crud, db, user))
    && (forall i, j | 0 <= i < j < |order| ::
          order[i] != order[j] && CreatedAt(db, order[i]) >= CreatedAt(db, order[j]))
  }

  /** The list's condition and arguments select exactly the visible rows. */
  lemma ListSelectsVisible(crud: Crud, db: Db, user: string, order: seq<string>)
    ensures Matching(db, OwnFilter(crud), OwnArgs(crud, user)) == Visible(crud, db, user).Keys
    ensures Delivers(db, OwnFilter(crud), OwnArgs(crud, user), order) <==> Selects(crud, db, user, order)
  {
    MatchingIsVisible(crud, db, user);
    var ids := Visible(crud, db, user).Keys;
    assert ids <= db.rows.Keys;
    if forall id :: id in order <==> id in ids {
      forall i | 0 <= i < |order| ensures order[i] in db.rows { assert order[i] in order; }
    }
  }

  lemma MatchingIsVisible(crud: Crud, db: Db, user: string)
    ensures Matching(db, OwnFilter(crud), OwnArgs(crud, user)) == Visible(crud, db, user).Keys
  {
    if crud.ownerScoped {
      assert ValueOf(Param(1), [Text(user)], Env("", 0)) == Text(user);
    }
  }

  predicate AllOpen(ctx: Context, crud: Crud, fetched: seq<Row>) {
    forall i | 0 <= i < |fetched| :: Opens(ctx, crud.fields, fetched[i])
  }

  function OpenedRows(ctx: Context, crud: Crud, fetched: seq<Row>): seq<Row> {
    seq(|fetched|, i requires 0 <= i < |fetched| => OpenedRow(ctx, crud.fields, fetched[i]))
  }

  function PageIds(order: seq<string>, size: nat, page: nat): seq<string>
    requires page >= 1
  {
    Slice(order, size, (page - 1) * size)
  }

  lemma PageIdsAreOrdered(order: seq<string>, size: nat, page: nat)
    requires page >= 1
    ensures forall i | 0 <= i < |PageIds(order, size, page)| :: PageIds(order, size, page)[i] in order
  {
  }

  ghost predicate AreRows(db: Db, order: seq<string>) {
    forall i | 0 <= i < |order| :: order[i] in db.rows
  }

  function PageRows(crud: Crud, db: Db, order: seq<string>, size: nat, page: nat): seq<Row>
    requires page >= 1 && AreRows(db, order)
  {
    PageIdsAreOrdered(order, size, page);
    Fetched(db, SelectColumns(crud), PageIds(order, size, page))
  }

  /** What a list request answers. */
  function PageOf(ctx: Context, crud: Crud, db: Db, order: seq<string>, size: nat, page: nat): Result<seq<Row>, Status>
    requires page >= 1 && AreRows(db, order)
  {
    if page > MAX_PAGE then Err(BadRequest)
    else
      var fetched := PageRows(crud, db, order, size, page);
      if AllOpen(ctx, crud, fetched) then Ok(OpenedRows(ctx, crud, fetched)) else Err(Internal)
  }

  /** Without a number a list has 50 rows and starts with the first page; 200 rows are the
      most, and the last page is the 100000th. */
  lemma PageNumbers(size: Option<int>, page: Option<int>)
    ensures PageSize(size) == if size.None? || size.value < 1 then 50 else if size.value > 200 then 200 else size.value
    ensures PageNumber(page) == if page.None? || page.value < 1 then 1 else page.value
    ensures MAX_PAGE == 100000
  {
  }

  /** Row `i` of page `n` is number `(n - 1) * size + i` of the order; only the last page is
      not full. */
  lemma PageHas(order: seq<string>, size: nat, n: nat)
    requires n >= 1
    ensures var ids, start := PageIds(order, size, n), (n - 1) * size;
            && (forall i | 0 <= i < |ids| :: start + i < |order| && ids[i] == order[start + i])
            && |ids| == (if |order| <= start then 0 else if |order| <= start + size then |order| - start else size)
  {
  }

  // ---- whose rows a list shows ---------------------------------------------------------------------

  lemma OwnerIsShown(ctx: Context, crud: Crud, db: Db, user: string, id: string)
    requires Accepted(crud) && crud.ownerScoped && id in RowsOf(db, user)
    ensures var shown := OpenedRow(ctx, crud.fields, Projected(db.rows[id], SelectColumns(crud)));
            CREATED_BY in shown && shown[CREATED_BY] == Text(user)
  {
    assert CREATED_BY in Columns(crud);
    ReservedOpens(ctx, crud, Projected(db.rows[id], SelectColumns(crud)), CREATED_BY);
  }

  /** With owner scoping every row a list returns names the caller as its owner. */
  lemma PageShowsOwner(ctx: Context, crud: Crud, db: Db, user: string, order: seq<string>, size: nat, page: nat)
    requires Accepted(crud) && page >= 1 && Selects(crud, db, user, order)
    ensures var out := PageOf(ctx, crud, db, order, size, page);
            crud.ownerScoped && out.Ok? ==>
              forall i | 0 <= i < |out.value| :: CREATED_BY in out.value[i] && out.value[i][CREATED_BY] == Text(user)
  {
    var ids := PageIds(order, size, page);
    PageIdsAreOrdered(order, size, page);
    if crud.ownerScoped {
      forall i | 0 <= i < |ids|
        ensures ids[i] in db.rows
        ensures var shown := OpenedRow(ctx, crud.fields, Projected(db.rows[ids[i]], SelectColumns(crud)));
                CREATED_BY in shown && shown[CREATED_BY] == Text(user)
      {
        assert ids[i] in order;
        OwnerIsShown(ctx, crud, db, user, ids[i]);
      }
    }
  }

  /** In every reachable state a list never fails on a row, and shows of it what the table
      without encryption would hold. */
  lemma ListShowsPlainRow(ctx: Context, crud: Crud, w: World, id: string)
    requires Accepted(crud) && ctx.pii.Some? && Lawful(ctx.pii.value)
    requires Inv(ctx, crud, w) && id in w.db.rows
    ensures var fetched := Projected(w.db.rows[id], SelectColumns(crud));
            && fetched.Keys == Columns(crud) && Opens(ctx, crud.fields, fetched)
            && OpenedRow(ctx, crud.fields, fetched)
               == Projected(OpenedDb(ctx, crud, w.db).rows[id], SelectColumns(crud))
  {
    var row := w.db.rows[id];
    HeldRowOpens(ctx, crud, row);
    var fetched := Projected(row, SelectColumns(crud));
    forall i | 0 <= i < |crud.fields| && crud.fields[i].name in fetched
      ensures OpenCell(ctx, crud.fields[i], fetched[crud.fields[i].name]).Some?
    {
      assert fetched[crud.fields[i].name] == row[crud.fields[i].name];
    }
  }

  /** So in every reachable state every page up to the cap is answered. */
  lemma PagesAreAnswered(ctx: Context, crud: Crud, w: World, order: seq<string>, size: nat, page: nat)
    requires Accepted(crud) && ctx.pii.Some? && Lawful(ctx.pii.value) && Inv(ctx, crud, w)
    requires AreRows(w.db, order) && 1 <= page <= MAX_PAGE
    ensures PageOf(ctx, crud, w.db, order, size, page) == Ok(ShownRows(ctx, crud, w.db, PageIds(order, size, page)))
  {
    var ids := PageIds(order, size, page);
    PageIdsAreOrdered(order, size, page);
    var fetched := PageRows(crud, w.db, order, size, page);
    forall i | 0 <= i < |fetched| ensures Opens(ctx, crud.fields, fetched[i]) {
      ListShowsPlainRow(ctx, crud, w, ids[i]);
    }
    assert OpenedRows(ctx, crud, fetched) == ShownRows(ctx, crud, w.db, ids);
  }

  function ShownRow(ctx: Context, crud: Crud, row: Row): Row {
    OpenedRow(ctx, crud.fields, Projected(row, SelectColumns(crud)))
  }

  function Shown(ctx: Context, crud: Crud, db: Db, id: string): Row {
    if id in db.rows then ShownRow(ctx, crud, db.rows[id]) else map[]
  }

  /** The rows of these ids as a client sees them. */
  function ShownRows(ctx: Context, crud: Crud, db: Db, ids: seq<string>): (shown: seq<Row>)
    ensures |shown| == |ids| && forall i | 0 <= i < |ids| :: shown[i] == Shown(ctx, crud, db, ids[i])
  {
    seq(|ids|, i requires 0 <= i < |ids| => Shown(ctx, crud, db, ids[i]))
  }

  // ---- paging -------------------------------------------------------------------------------------

  /** The ids on the first `n` pages, one after the other. */
  function Pages(order: seq<string>, size: nat, n: nat): seq<string> {
    if n == 0 then [] else Pages(order, size, n - 1) + PageIds(order, size, n)
  }

  lemma {:induction false} PagesArePrefix(order: seq<string>, size: nat, n: nat)
    ensures Pages(order, size, n) == if n * size <= |order| then order[..n * size] else order
  {
    if n > 0 {
      PagesArePrefix(order, size, n - 1);
      assert n * size == (n - 1) * size + size;
    }
  }

  /** What a client collects that asks for page 1, 2, ... up to `n`. */
  function Gathered(ctx: Context, crud: Crud, db: Db, order: seq<string>, size: nat, n: nat): seq<Row>
    requires AreRows(db, order)
  {
    if n == 0 then []
    else
      var page := PageOf(ctx, crud, db, order, size, n);
      Gathered(ctx, crud, db, order, size, n - 1) + if page.Ok? then page.value else []
  }

  /** Every page up to the cap is answered with the rows of its ids. */
  ghost predicate Answered(ctx: Context, crud: Crud, db: Db, order: seq<string>, size: nat)
    requires AreRows(db, order)
  {
    forall page | 1 <= page <= MAX_PAGE ::
      PageOf(ctx, crud, db, order, size, page) == Ok(ShownRows(ctx, crud, db, PageIds(order, size, page)))
  }

  lemma {:induction false} GatheredIs(ctx: Context, crud: Crud, db: Db, order: seq<string>, size: nat, n: nat)
    requires AreRows(db, order) && Answered(ctx, crud, db, order, size) && n <= MAX_PAGE
    ensures Gathered(ctx, crud, db, order, size, n) == ShownRows(ctx, crud, db, Pages(order, size, n))
  {
    if n > 0 {
      GatheredIs(ctx, crud, db, order, size, n - 1);
      ShownRowsBoth(ctx, crud, db, Pages(order, size, n - 1), PageIds(order, size, n));
    }
  }

  lemma ShownRowsBoth(ctx: Context, crud: Crud, db: Db, a: seq<string>, b: seq<string>)
    ensures ShownRows(ctx, crud, db, a + b) == ShownRows(ctx, crud, db, a) + ShownRows(ctx, crud, db, b)
  {
    var all, front, back := ShownRows(ctx, crud, db, a + b), ShownRows(ctx, crud, db, a), ShownRows(ctx, crud, db, b);
    forall i | 0 <= i < |a + b| ensures all[i] == (front + back)[i] {
      assert (a + b)[i] == if i < |a| then a[i] else b[i - |a|];
    }
  }

  /** While the rows stay the same, the pages a list answers show every visible row, each
      once and in order, exactly when the rows fit on the pages up to the cap. */
  lemma PagesShowEveryRowIff(ctx: Context, crud: Crud, w: World, order: seq<string>, size: nat)
    requires Accepted(crud) && ctx.pii.Some? && Lawful(ctx.pii.value) && Inv(ctx, crud, w)
    requires AreRows(w.db, order)
    ensures Gathered(ctx, crud, w.db, order, size, MAX_PAGE) == ShownRows(ctx, crud, w.db, order)
       <==> |order| <= MAX_PAGE * size
    ensures forall page | page > MAX_PAGE :: PageOf(ctx, crud, w.db, order, size, page) == Err(BadRequest)
  {
    forall page | 1 <= page <= MAX_PAGE
      ensures PageOf(ctx, crud, w.db, order, size, page) == Ok(ShownRows(ctx, crud, w.db, PageIds(order, size, page)))
    {
      PagesAreAnswered(ctx, crud, w, order, size, page);
    }
    GatheredIs(ctx, crud, w.db, order, size, MAX_PAGE);
    PagesArePrefix(order, size, MAX_PAGE);
  }

  // ---- a created row is listed -----------------------------------------------------------------------

  /** The row a client gets for an accepted create: the submitted values, null for the
      fields left out, the id and the owner. */
  ghost predicate AsSubmitted(ctx: Context, crud: Crud, body: Body, user: string, id: string, row: Row) {
    && ID in row && row[ID] == Text(id)
    && (crud.ownerScoped ==> CREATED_BY in row && row[CREATED_BY] == Text(user))
    && (forall i | 0 <= i < |crud.fields| :: crud.fields[i].name in row &&
          if crud.fields[i].name !in body || body[crud.fields[i].name] == NULL
          then row[crud.fields[i].name] == Null
          else Some(row[crud.fields[i].name]) == ctx.read(crud.fields[i].kind, body[crud.fields[i].name]))
  }

  lemma CreatedIsShown(ctx: Context, crud: Crud, columns: set<string>, body: Body, nonce: string -> nat,
                       user: string, env: Env)
    requires Accepted(crud) && Migrated(crud, columns) && ctx.pii.Some? && Lawful(ctx.pii.value)
    requires Refusal(ctx, Creating, body, crud.fields, nonce).None?
    ensures var row := CreatedRow(ctx, crud, columns, body, nonce, user, env);
            AsSubmitted(ctx, crud, body, user, env.newId, ShownRow(ctx, crud, row))
  {
    var row := CreatedRow(ctx, crud, columns, body, nonce, user, env);
    var shown := ShownRow(ctx, crud, row);
    ReservedOpens(ctx, crud, Projected(row, SelectColumns(crud)), ID);
    if crud.ownerScoped { ReservedOpens(ctx, crud, Projected(row, SelectColumns(crud)), CREATED_BY); }
    forall i | 0 <= i < |crud.fields|
      ensures crud.fields[i].name in shown
      ensures shown[crud.fields[i].name] == OpenedRow(ctx, crud.fields, row)[crud.fields[i].name]
      ensures if crud.fields[i].name !in body || body[crud.fields[i].name] == NULL
              then shown[crud.fields[i].name] == Null
              else Some(shown[crud.fields[i].name]) == ctx.read(crud.fields[i].kind, body[crud.fields[i].name])
    {
      assert crud.fields[i].name in Columns(crud);
      SubmittedReadsBack(ctx, crud, columns, body, nonce, user, env, i);
    }
  }

  /** Position `p` of the order is on page `p / size + 1`. */
  lemma OnItsPage(order: seq<string>, size: nat, p: nat)
    requires size >= 1 && p < |order|
    ensures var page := p / size + 1;
            p % size < |PageIds(order, size, page)| && PageIds(order, size, page)[p % size] == order[p]
  {
    assert p == size * (p / size) + p % size && size * (p / size) == (p / size) * size;
  }

  lemma WithinCap(p: nat, size: nat)
    requires size >= 1 && p < MAX_PAGE * size
    ensures p / size < MAX_PAGE
  {
    assert p >= size * (p / size);
    if p / size >= MAX_PAGE {
      LargerFactor(size, p / size, MAX_PAGE);
    }
  }

  lemma LargerFactor(a: nat, b: nat, c: nat)
    requires b >= c
    ensures a * b >= a * c
  {
  }

  lemma PlaceOf(order: seq<string>, size: nat, p: nat) returns (page: nat, i: nat)
    requires size >= 1 && p < |order| <= MAX_PAGE * size
    ensures 1 <= page <= MAX_PAGE
    ensures i < |PageIds(order, size, page)| && PageIds(order, size, page)[i] == order[p]
  {
    page, i := p / size + 1, p % size;
    WithinCap(p, size);
    OnItsPage(order, size, p);
  }

  /** Every visible row is on a page that can be asked for, if all fit under the cap. */
  lemma VisibleIsListed(ctx: Context, crud: Crud, w: World, user: string, order: seq<string>, size: nat, id: string)
    returns (page: nat, i: nat)
    requires Accepted(crud) && ctx.pii.Some? && Lawful(ctx.pii.value) && Inv(ctx, crud, w)
    requires Selects(crud, w.db, user, order) && id in Visible(crud, w.db, user)
    requires size >= 1 && |order| <= MAX_PAGE * size
    ensures 1 <= page <= MAX_PAGE
    ensures var out := PageOf(ctx, crud, w.db, order, size, page);
            out.Ok? && i < |out.value| && out.value[i] == Shown(ctx, crud, w.db, id)
  {
    assert id in order;
    var p :| 0 <= p < |order| && order[p] == id;
    page, i := PlaceOf(order, size, p);
    PagesAreAnswered(ctx, crud, w, order, size, page);
  }

  /** The table of `t` is the one of `w` with an accepted create done. */
  ghost predicate Adds(ctx: Context, crud: Crud, w: World, t: World, body: Body, nonce: string -> nat, user: string,
                       env: Env) {
    t.db == w.db.(rows := w.db.rows[env.newId := CreatedRow(ctx, crud, w.db.columns, body, nonce, user, env)])
  }

  lemma CreatedIsVisible(ctx: Context, crud: Crud, w: World, t: World, body: Body, nonce: string -> nat,
                         user: string, env: Env)
    requires Accepted(crud) && Migrated(crud, w.db.columns) && Adds(ctx, crud, w, t, body, nonce, user, env)
    ensures env.newId in Visible(crud, t.db, user)
  {
    CreatedRowFits(ctx, crud, w.db.columns, body, nonce, user, env);
  }

  /** After an accepted create, in any reachable state, some page the user can ask for
      shows the row with the submitted values, if the visible rows fit under the cap. */
  lemma CreatedRowIsListed(ctx: Context, crud: Crud, w: World, body: Body, nonce: string -> nat, user: string,
                           env: Env, order: seq<string>, size: nat) returns (page: nat, i: nat)
    requires Accepted(crud) && Reads(ctx) && ctx.pii.Some? && Lawful(ctx.pii.value)
    requires Inv(ctx, crud, w) && env.newId !in w.issued
    requires Refusal(ctx, Creating, body, crud.fields, nonce).None? && !NothingToInsert(ctx, crud, body, nonce)
    requires var t := Step(ctx, crud, w, Create(user, body, nonce, env));
             Delivers(t.db, OwnFilter(crud), OwnArgs(crud, user), order)
    requires size >= 1 && |order| <= MAX_PAGE * size
    ensures var t := Step(ctx, crud, w, Create(user, body, nonce, env));
            && 1 <= page <= MAX_PAGE && AreRows(t.db, order)
            && var out := PageOf(ctx, crud, t.db, order, size, page);
               out.Ok? && i < |out.value| && AsSubmitted(ctx, crud, body, user, env.newId, out.value[i])
  {
    var a := Create(user, body, nonce, env);
    var t := Step(ctx, crud, w, a);
    StepKeepsInv(ctx, crud, w, a);
    ListSelectsVisible(crud, t.db, user, order);
    CreatedIsVisible(ctx, crud, w, t, body, nonce, user, env);
    CreatedIsShown(ctx, crud, w.db.columns, body, nonce, user, env);
    page, i := VisibleIsListed(ctx, crud, t, user, order, size, env.newId);
  }
}
