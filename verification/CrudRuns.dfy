/** Every run of requests against one CRUD table. A patch or a deletion is two steps, the
    ownership check and the write, and the steps of different requests may interleave. */
module CrudRuns {
  import opened Wrappers
  import opened Crypto
  import opened CrudManifest
  import opened CrudSql
  import opened CrudRequests
  import opened CrudRows

  // ---- one request ------------------------------------------------------------------------

  /** The answer of the ownership check: none if the request may go on. */
  function Owns(crud: Crud, db: Db, user: string, id: string): Option<Status> {
    if id !in db.rows then Some(NotFound)
    else if !crud.ownerScoped then None
    else if CREATED_BY !in db.rows[id] || !db.rows[id][CREATED_BY].Text? then Some(Internal)
    else if db.rows[id][CREATED_BY].s != user then Some(Forbidden)
    else None
  }

  function Creates(ctx: Context, crud: Crud, db: Db, body: Body, nonce: string -> nat, user: string, env: Env): Db {
    if Refusal(ctx, Creating, body, crud.fields, nonce).Some? || NothingToInsert(ctx, crud, body, nonce) then db
    else db.(rows := db.rows[env.newId := CreatedRow(ctx, crud, db.columns, body, nonce, user, env)])
  }

  function Patches(ctx: Context, crud: Crud, db: Db, id: string, body: Body, nonce: string -> nat, env: Env): Db {
    if Refusal(ctx, Patching, body, crud.fields, nonce).Some? then db
    else db.(rows := PatchedRows(ctx, crud, db.rows, id, body, nonce, env))
  }

  function Deletes(db: Db, id: string): Db {
    db.(rows := Without(db.rows, ID, Text(id)))
  }

  // ---- runs ---------------------------------------------------------------------------------

  /** `checked` are the writes whose ownership check has passed, `issued` all row ids. */
  datatype World = World(db: Db, checked: set<(string, string)>, issued: set<string>)

  datatype Action =
    | Create(user: string, body: Body, nonce: string -> nat, env: Env)
    | Check(user: string, id: string)
    | Patch(user: string, id: string, body: Body, nonce: string -> nat, env: Env)
    | Remove(user: string, id: string)

  function Step(ctx: Context, crud: Crud, w: World, a: Action): World {
    match a
    case Create(user, body, nonce, env) =>
      World(Creates(ctx, crud, w.db, body, nonce, user, env), w.checked, w.issued + {env.newId})
    case Check(user, id) =>
      if Owns(crud, w.db, user, id).None? then w.(checked := w.checked + {(user, id)}) else w
    case Patch(user, id, body, nonce, env) =>
      if (user, id) in w.checked then w.(db := Patches(ctx, crud, w.db, id, body, nonce, env)) else w
    case Remove(user, id) =>
      if (user, id) in w.checked then w.(db := Deletes(w.db, id)) else w
  }

  function Run(ctx: Context, crud: Crud, w: World, actions: seq<Action>): World
    decreases |actions|
  {
    if actions == [] then w else Run(ctx, crud, Step(ctx, crud, w, actions[0]), actions[1..])
  }

  /** New rows get ids never used before. */
  ghost predicate Fresh(issued: set<string>, a: Action) {
    a.Create? ==> a.env.newId !in issued
  }

  ghost predicate FreshRun(ctx: Context, crud: Crud, w: World, actions: seq<Action>)
    decreases |actions|
  {
    actions == [] || (Fresh(w.issued, actions[0]) && FreshRun(ctx, crud, Step(ctx, crud, w, actions[0]), actions[1..]))
  }

  // ---- what every state satisfies ---------------------------------------------------------------

  ghost predicate RowFits(crud: Crud, columns: set<string>, id: string, row: Row) {
    && Migrated(crud, columns) && row.Keys == columns && row[ID] == Text(id)
    && row[CREATED_AT].Time? && (crud.ownerScoped ==> row[CREATED_BY].Text?)
  }

  ghost predicate Inv(ctx: Context, crud: Crud, w: World) {
    && Migrated(crud, w.db.columns)
    && (forall id | id in w.db.rows ::
          && id in w.issued && RowFits(crud, w.db.columns, id, w.db.rows[id])
          && RowHolds(ctx, crud, w.db.rows[id]))
    && (forall user, id | (user, id) in w.checked ::
          && id in w.issued
          && (crud.ownerScoped && id in w.db.rows ==> w.db.rows[id][CREATED_BY] == Text(user)))
  }

  lemma CreatedRowFits(ctx: Context, crud: Crud, columns: set<string>, body: Body, nonce: string -> nat,
                       user: string, env: Env)
    requires Accepted(crud) && Migrated(crud, columns)
    ensures var row := CreatedRow(ctx, crud, columns, body, nonce, user, env);
            RowFits(crud, columns, env.newId, row) && (crud.ownerScoped ==> row[CREATED_BY] == Text(user))
  {
  }

  /** A patch leaves the id, the creation time and the owner alone. */
  lemma PatchedRowFits(ctx: Context, crud: Crud, columns: set<string>, id: string, row: Row, body: Body,
                       nonce: string -> nat, env: Env)
    requires Accepted(crud) && Migrated(crud, columns) && RowFits(crud, columns, id, row)
    ensures var patched := PatchedRow(ctx, crud, row, body, nonce, env);
            && RowFits(crud, columns, id, patched)
            && patched[ID] == row[ID] && patched[CREATED_AT] == row[CREATED_AT]
            && (CREATED_BY in columns ==> patched[CREATED_BY] == row[CREATED_BY])
  {
    forall c | c in {ID, CREATED_AT, CREATED_BY}
      ensures CellFor(ctx, Patching, body, crud.fields, c, nonce).None?
    {
      if CellFor(ctx, Patching, body, crud.fields, c, nonce).Some? {
        CellForReserved(ctx, Patching, body, crud, c, nonce);
      }
    }
  }

  function Find(db: Db, r: string): Option<Row> {
    if r in db.rows then Some(db.rows[r]) else None
  }

  /** Row `r` after one step: a write concerns the one row it names. */
  function RowAfter(ctx: Context, crud: Crud, w: World, a: Action, r: string): Option<Row> {
    match a
    case Create(user, body, nonce, env) =>
      if r == env.newId && Refusal(ctx, Creating, body, crud.fields, nonce).None?
         && !NothingToInsert(ctx, crud, body, nonce)
      then Some(CreatedRow(ctx, crud, w.db.columns, body, nonce, user, env))
      else Find(w.db, r)
    case Patch(user, id, body, nonce, env) =>
      if r == id && (user, id) in w.checked && r in w.db.rows && Refusal(ctx, Patching, body, crud.fields, nonce).None?
      then Some(PatchedRow(ctx, crud, w.db.rows[r], body, nonce, env))
      else Find(w.db, r)
    case Remove(user, id) => if r == id && (user, id) in w.checked then None else Find(w.db, r)
    case Check(_, _) => Find(w.db, r)
  }

  lemma StepIsRowAfter(ctx: Context, crud: Crud, w: World, a: Action, r: string)
    requires Keyed(w.db)
    ensures Find(Step(ctx, crud, w, a).db, r) == RowAfter(ctx, crud, w, a, r)
    ensures Step(ctx, crud, w, a).db.columns == w.db.columns
  {
  }

  ghost predicate Keyed(db: Db) {
    forall id | id in db.rows :: ID in db.rows[id] && db.rows[id][ID] == Text(id)
  }

  /** What one step does to row `r`. */
  lemma StepOnRow(ctx: Context, crud: Crud, w: World, a: Action, r: string)
    requires Accepted(crud) && Reads(ctx) && Inv(ctx, crud, w) && Fresh(w.issued, a)
    ensures Find(Step(ctx, crud, w, a).db, r) == RowAfter(ctx, crud, w, a, r)
    ensures Step(ctx, crud, w, a).db.columns == w.db.columns
    ensures RowAfter(ctx, crud, w, a, r).Some? ==>
              var row := RowAfter(ctx, crud, w, a, r).value;
              && RowFits(crud, w.db.columns, r, row) && RowHolds(ctx, crud, row)
              && (r in w.issued || (a.Create? && r == a.env.newId))
              && (r in w.issued ==> SameOrigin(w.db, r, row))
  {
    StepIsRowAfter(ctx, crud, w, a, r);
    match a {
      case Create(user, body, nonce, env) =>
        CreatedRowFits(ctx, crud, w.db.columns, body, nonce, user, env);
        if Refusal(ctx, Creating, body, crud.fields, nonce).None? {
          CreatedRowHolds(ctx, crud, w.db.columns, body, nonce, user, env);
        }
      case Patch(user, id, body, nonce, env) =>
        if r in w.db.rows && Refusal(ctx, Patching, body, crud.fields, nonce).None? {
          PatchedRowFits(ctx, crud, w.db.columns, r, w.db.rows[r], body, nonce, env);
          PatchedRowHolds(ctx, crud, w.db.rows[r], body, nonce, env);
        }
      case _ =>
    }
  }

  /** The row `r` of the table and `row` have the same id, creation time and owner. */
  ghost predicate SameOrigin(db: Db, r: string, row: Row) {
    && r in db.rows && db.rows[r].Keys == row.Keys
    && (forall c | c in {ID, CREATED_AT, CREATED_BY} && c in row :: row[c] == db.rows[r][c])
  }

  lemma StepKeepsInv(ctx: Context, crud: Crud, w: World, a: Action)
    requires Accepted(crud) && Reads(ctx) && Inv(ctx, crud, w) && Fresh(w.issued, a)
    ensures Inv(ctx, crud, Step(ctx, crud, w, a))
  {
    var t := Step(ctx, crud, w, a);
    StepOnRow(ctx, crud, w, a, "");
    forall id | id in t.db.rows
      ensures id in t.issued && RowFits(crud, t.db.columns, id, t.db.rows[id]) && RowHolds(ctx, crud, t.db.rows[id])
    {
      StepOnRow(ctx, crud, w, a, id);
    }
    forall user, id | (user, id) in t.checked
      ensures id in t.issued && (crud.ownerScoped && id in t.db.rows ==> t.db.rows[id][CREATED_BY] == Text(user))
    {
      StepOnRow(ctx, crud, w, a, id);
    }
  }

  lemma {:induction false} RunKeepsInv(ctx: Context, crud: Crud, w: World, actions: seq<Action>)
    requires Accepted(crud) && Reads(ctx) && Inv(ctx, crud, w) && FreshRun(ctx, crud, w, actions)
    ensures Inv(ctx, crud, Run(ctx, crud, w, actions))
    decreases |actions|
  {
    if actions != [] {
      StepKeepsInv(ctx, crud, w, actions[0]);
      RunKeepsInv(ctx, crud, Step(ctx, crud, w, actions[0]), actions[1..]);
    }
  }

  /** Through any run a row that is still there has its id, creation time and owner, and
      a row that is gone stays gone. */
  lemma {:induction false} RunKeepsOrigin(ctx: Context, crud: Crud, w: World, actions: seq<Action>, r: string)
    requires Accepted(crud) && Reads(ctx) && Inv(ctx, crud, w) && FreshRun(ctx, crud, w, actions) && r in w.issued
    ensures var t := Run(ctx, crud, w, actions);
            r in t.db.rows ==> SameOrigin(w.db, r, t.db.rows[r])
    decreases |actions|
  {
    if actions != [] {
      var t := Step(ctx, crud, w, actions[0]);
      StepOnRow(ctx, crud, w, actions[0], r);
      StepKeepsInv(ctx, crud, w, actions[0]);
      RunKeepsOrigin(ctx, crud, t, actions[1..], r);
    }
  }

  lemma EmptyTable(ctx: Context, crud: Crud, columns: set<string>, user: string)
    requires Migrated(crud, columns)
    ensures var w := World(Db(columns, map[]), {}, {}); Inv(ctx, crud, w) && Alike(w, w, user)
  {
  }

  // ---- one user's rows are that user's business ----------------------------------------------------

  /** The rows `user` created. */
  function RowsOf(db: Db, user: string): map<string, Row> {
    map id | id in db.rows && CREATED_BY in db.rows[id] && db.rows[id][CREATED_BY] == Text(user) :: db.rows[id]
  }

  function OnlyBy(user: string, actions: seq<Action>): seq<Action> {
    if actions == [] then []
    else (if actions[0].user == user then [actions[0]] else []) + OnlyBy(user, actions[1..])
  }

  /** To `user` the two worlds look alike; the first may have seen more. */
  ghost predicate Alike(w: World, v: World, user: string) {
    && w.db.columns == v.db.columns && v.issued <= w.issued
    && RowsOf(w.db, user) == RowsOf(v.db, user)
    && (forall id :: (user, id) in w.checked <==> (user, id) in v.checked)
  }

  /** No request of somebody else touches the user's rows. */
  lemma OthersDoNotTouch(ctx: Context, crud: Crud, w: World, a: Action, user: string)
    requires Accepted(crud) && crud.ownerScoped && Reads(ctx) && Inv(ctx, crud, w) && Fresh(w.issued, a)
    requires a.user != user
    ensures RowsOf(Step(ctx, crud, w, a).db, user) == RowsOf(w.db, user)
  {
    var t := Step(ctx, crud, w, a);
    forall id ensures Own(Find(t.db, id), user) == Own(Find(w.db, id), user) {
      StepOnRow(ctx, crud, w, a, id);
      if a.Create? { CreatedRowFits(ctx, crud, w.db.columns, a.body, a.nonce, a.user, a.env); }
    }
    SameRowsOf(t.db, w.db, user);
  }

  /** The row, if it is the user's. */
  function Own(row: Option<Row>, user: string): Option<Row> {
    if row.Some? && CREATED_BY in row.value && row.value[CREATED_BY] == Text(user) then row else None
  }

  lemma SameRowsOf(a: Db, b: Db, user: string)
    ensures RowsOf(a, user) == RowsOf(b, user) <==> forall id :: Own(Find(a, id), user) == Own(Find(b, id), user)
  {
    forall id
      ensures id in RowsOf(a, user) <==> Own(Find(a, id), user).Some?
      ensures id in RowsOf(b, user) <==> Own(Find(b, id), user).Some?
      ensures id in RowsOf(a, user) ==> Own(Find(a, id), user) == Some(RowsOf(a, user)[id])
      ensures id in RowsOf(b, user) ==> Own(Find(b, id), user) == Some(RowsOf(b, user)[id])
    {
    }
    if RowsOf(a, user) == RowsOf(b, user) {
      forall id ensures Own(Find(a, id), user) == Own(Find(b, id), user) {
        assert id in RowsOf(a, user) <==> id in RowsOf(b, user);
      }
    }
    if forall id :: Own(Find(a, id), user) == Own(Find(b, id), user) {
      forall id ensures (id in RowsOf(a, user) <==> id in RowsOf(b, user))
                     && (id in RowsOf(a, user) ==> RowsOf(a, user)[id] == RowsOf(b, user)[id])
      {
        assert Own(Find(a, id), user) == Own(Find(b, id), user);
      }
    }
  }

  /** The user's own request does the same in both worlds. */
  lemma OwnStepsAlike(ctx: Context, crud: Crud, w: World, v: World, a: Action)
    requires Accepted(crud) && crud.ownerScoped && Reads(ctx)
    requires Inv(ctx, crud, w) && Inv(ctx, crud, v) && Alike(w, v, a.user) && Fresh(w.issued, a)
    ensures Alike(Step(ctx, crud, w, a), Step(ctx, crud, v, a), a.user)
  {
    var x, y := Step(ctx, crud, w, a), Step(ctx, crud, v, a);
    SameRowsOf(w.db, v.db, a.user);
    if a.Check? { SameCheck(crud, w, v, a.user, a.id); }
    forall id ensures Own(Find(x.db, id), a.user) == Own(Find(y.db, id), a.user) {
      OwnRowAlike(ctx, crud, w, v, a, id);
    }
    SameRowsOf(x.db, y.db, a.user);
  }

  lemma OthersStepAlike(ctx: Context, crud: Crud, w: World, v: World, a: Action, user: string)
    requires Accepted(crud) && crud.ownerScoped && Reads(ctx) && Inv(ctx, crud, w) && Fresh(w.issued, a)
    requires Alike(w, v, user) && a.user != user
    ensures Alike(Step(ctx, crud, w, a), v, user)
  {
    OthersDoNotTouch(ctx, crud, w, a, user);
    StepOnRow(ctx, crud, w, a, "");
  }

  lemma SameCheck(crud: Crud, w: World, v: World, user: string, id: string)
    requires crud.ownerScoped && Own(Find(w.db, id), user) == Own(Find(v.db, id), user)
    ensures Owns(crud, w.db, user, id).None? <==> Owns(crud, v.db, user, id).None?
  {
  }

  lemma OwnRowAlike(ctx: Context, crud: Crud, w: World, v: World, a: Action, id: string)
    requires Accepted(crud) && crud.ownerScoped && Reads(ctx)
    requires Inv(ctx, crud, w) && Inv(ctx, crud, v) && Alike(w, v, a.user) && Fresh(w.issued, a)
    requires Own(Find(w.db, id), a.user) == Own(Find(v.db, id), a.user)
    ensures Own(Find(Step(ctx, crud, w, a).db, id), a.user) == Own(Find(Step(ctx, crud, v, a).db, id), a.user)
  {
    StepOnRow(ctx, crud, w, a, id);
    StepOnRow(ctx, crud, v, a, id);
  }

  /** With owner scoping, what a user's rows are after any interleaving of everybody's
      requests is what they are if only that user's requests had been made. */
  lemma {:induction false} OthersDoNotMatter(ctx: Context, crud: Crud, w: World, v: World, actions: seq<Action>,
                                             user: string)
    requires Accepted(crud) && crud.ownerScoped && Reads(ctx)
    requires Inv(ctx, crud, w) && Inv(ctx, crud, v) && Alike(w, v, user) && FreshRun(ctx, crud, w, actions)
    ensures RowsOf(Run(ctx, crud, w, actions).db, user) == RowsOf(Run(ctx, crud, v, OnlyBy(user, actions)).db, user)
    decreases |actions|
  {
    if actions != [] {
      var a := actions[0];
      StepKeepsInv(ctx, crud, w, a);
      if a.user == user {
        OwnStepsAlike(ctx, crud, w, v, a);
        assert Fresh(v.issued, a);
        StepKeepsInv(ctx, crud, v, a);
        OthersDoNotMatter(ctx, crud, Step(ctx, crud, w, a), Step(ctx, crud, v, a), actions[1..], user);
        RunOfCons(ctx, crud, v, a, OnlyBy(user, actions[1..]));
      } else {
        OthersStepAlike(ctx, crud, w, v, a, user);
        OthersDoNotMatter(ctx, crud, Step(ctx, crud, w, a), v, actions[1..], user);
        assert OnlyBy(user, actions) == OnlyBy(user, actions[1..]);
      }
    }
  }

  lemma RunOfCons(ctx: Context, crud: Crud, w: World, a: Action, rest: seq<Action>)
    ensures Run(ctx, crud, w, [a] + rest) == Run(ctx, crud, Step(ctx, crud, w, a), rest)
  {
    assert ([a] + rest)[1..] == rest;
  }

  /** From the empty table the migration leaves: every state is as above, and with owner
      scoping every user is alone with the own rows. */
  lemma FromTheEmptyTable(ctx: Context, crud: Crud, columns: set<string>, actions: seq<Action>, user: string)
    requires Accepted(crud) && Reads(ctx) && Migrated(crud, columns)
    requires FreshRun(ctx, crud, World(Db(columns, map[]), {}, {}), actions)
    ensures var w := World(Db(columns, map[]), {}, {});
            && Inv(ctx, crud, Run(ctx, crud, w, actions))
            && (crud.ownerScoped ==>
                  RowsOf(Run(ctx, crud, w, actions).db, user)
                  == RowsOf(Run(ctx, crud, w, OnlyBy(user, actions)).db, user))
  {
    var w := World(Db(columns, map[]), {}, {});
    EmptyTable(ctx, crud, columns, user);
    RunKeepsInv(ctx, crud, w, actions);
    if crud.ownerScoped { OthersDoNotMatter(ctx, crud, w, w, actions, user); }
  }

  // ---- encryption is invisible ---------------------------------------------------------------------

  function OpenedDb(ctx: Context, crud: Crud, db: Db): Db {
    db.(rows := map id | id in db.rows :: OpenedRow(ctx, crud.fields, db.rows[id]))
  }

  function OpenedWorld(ctx: Context, crud: Crud, w: World): World {
    w.(db := OpenedDb(ctx, crud, w.db))
  }

  /** Opening a cell that no declared field stands for leaves it. */
  lemma ReservedOpens(ctx: Context, crud: Crud, row: Row, c: string)
    requires Accepted(crud) && c in RESERVED && c in row
    ensures OpenedRow(ctx, crud.fields, row)[c] == row[c]
  {
  }

  lemma CheckIsPlain(ctx: Context, crud: Crud, w: World, user: string, id: string)
    requires Accepted(crud)
    ensures Owns(crud, OpenedDb(ctx, crud, w.db), user, id) == Owns(crud, w.db, user, id)
  {
    if id in w.db.rows && CREATED_BY in w.db.rows[id] {
      ReservedOpens(ctx, crud, w.db.rows[id], CREATED_BY);
    }
  }

  lemma NothingIsPlain(ctx: Context, crud: Crud, body: Body, nonce: string -> nat)
    requires ctx.pii.Some? && Lawful(ctx.pii.value)
    ensures NothingToInsert(ctx, crud, body, nonce) <==> NothingToInsert(Plain(ctx), crud, body, nonce)
  {
    forall i | 0 <= i < |crud.fields|
      ensures WorkOf(ctx, Creating, body, crud.fields[i], nonce).Skip?
         <==> WorkOf(Plain(ctx), Creating, body, crud.fields[i], nonce).Skip?
    {
      WorkOpens(ctx, Creating, body, crud.fields[i], nonce);
    }
  }

  lemma CreateIsPlain(ctx: Context, crud: Crud, db: Db, body: Body, nonce: string -> nat, user: string, env: Env)
    requires Accepted(crud) && ctx.pii.Some? && Lawful(ctx.pii.value)
    ensures OpenedDb(ctx, crud, Creates(ctx, crud, db, body, nonce, user, env))
         == Creates(Plain(ctx), crud, OpenedDb(ctx, crud, db), body, nonce, user, env)
  {
    RefusalIsPlain(ctx, Creating, body, crud.fields, nonce);
    NothingIsPlain(ctx, crud, body, nonce);
    CreatedRowOpens(ctx, crud, db.columns, body, nonce, user, env);
  }

  lemma PatchIsPlain(ctx: Context, crud: Crud, db: Db, id: string, body: Body, nonce: string -> nat, env: Env)
    requires Accepted(crud) && ctx.pii.Some? && Lawful(ctx.pii.value)
    ensures OpenedDb(ctx, crud, Patches(ctx, crud, db, id, body, nonce, env))
         == Patches(Plain(ctx), crud, OpenedDb(ctx, crud, db), id, body, nonce, env)
  {
    RefusalIsPlain(ctx, Patching, body, crud.fields, nonce);
    var open := OpenedDb(ctx, crud, db);
    forall r | r in db.rows
      ensures Meets(open.rows[r], ID, Text(id)) <==> Meets(db.rows[r], ID, Text(id))
      ensures OpenedRow(ctx, crud.fields, PatchedRow(ctx, crud, db.rows[r], body, nonce, env))
           == PatchedRow(Plain(ctx), crud, open.rows[r], body, nonce, env)
    {
      if ID in db.rows[r] { ReservedOpens(ctx, crud, db.rows[r], ID); }
      PatchedRowOpens(ctx, crud, db.rows[r], body, nonce, env);
    }
  }

  lemma DeleteIsPlain(ctx: Context, crud: Crud, db: Db, id: string)
    requires Accepted(crud)
    ensures OpenedDb(ctx, crud, Deletes(db, id)) == Deletes(OpenedDb(ctx, crud, db), id)
  {
    var open := OpenedDb(ctx, crud, db);
    forall r | r in db.rows
      ensures Meets(open.rows[r], ID, Text(id)) <==> Meets(db.rows[r], ID, Text(id))
    {
      if ID in db.rows[r] { ReservedOpens(ctx, crud, db.rows[r], ID); }
    }
  }

  lemma StepIsPlain(ctx: Context, crud: Crud, w: World, a: Action)
    requires Accepted(crud) && ctx.pii.Some? && Lawful(ctx.pii.value)
    ensures OpenedWorld(ctx, crud, Step(ctx, crud, w, a)) == Step(Plain(ctx), crud, OpenedWorld(ctx, crud, w), a)
  {
    match a {
      case Create(user, body, nonce, env) => CreateIsPlain(ctx, crud, w.db, body, nonce, user, env);
      case Check(user, id) => CheckIsPlain(ctx, crud, w, user, id);
      case Patch(_, id, body, nonce, env) => PatchIsPlain(ctx, crud, w.db, id, body, nonce, env);
      case Remove(_, id) => DeleteIsPlain(ctx, crud, w.db, id);
    }
  }

  /** Read through decryption, the table after any run is the table a store without
      encryption would hold. */
  lemma {:induction false} EncryptionIsInvisible(ctx: Context, crud: Crud, w: World, actions: seq<Action>)
    requires Accepted(crud) && ctx.pii.Some? && Lawful(ctx.pii.value)
    ensures OpenedWorld(ctx, crud, Run(ctx, crud, w, actions))
         == Run(Plain(ctx), crud, OpenedWorld(ctx, crud, w), actions)
    decreases |actions|
  {
    if actions != [] {
      StepIsPlain(ctx, crud, w, actions[0]);
      EncryptionIsInvisible(ctx, crud, Step(ctx, crud, w, actions[0]), actions[1..]);
    }
  }
}
