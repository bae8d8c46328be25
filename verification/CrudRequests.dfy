/** What a create or a patch asks for, field by field, and the statements built for it. */
module CrudRequests {
  import opened Wrappers
  import opened Crypto
  import opened CrudManifest
  import opened CrudSql

  datatype Status = BadRequest | Forbidden | NotFound | Internal

  /** The JSON object of a request: each key with the text of its value. */
  type Body = map<string, string>

  const NULL := "null"

  /** How JSON values of each kind are read, and the key for encrypted columns, if set. */
  datatype Context = Context(read: (string, string) -> Option<Cell>, pii: Option<Cipher>)

  /** Reading never yields SQL's null, and a text kind yields text. */
  ghost predicate Reads(ctx: Context) {
    forall kind, raw: string ::
      ctx.read(kind, raw).Some? ==>
        ctx.read(kind, raw).value != Null && (IsText(kind) ==> ctx.read(kind, raw).value.Text?)
  }

  datatype Mode = Creating | Patching

  /** What one field contributes to the statement. */
  datatype Work = Skip | Put(cell: Cell) | Refuse(status: Status)

  function Stored(ctx: Context, f: Field, raw: string, nonce: string -> nat): Work {
    match ctx.read(f.kind, raw)
    case None => Refuse(BadRequest)
    case Some(v) =>
      if !f.encrypted then Put(v)
      else if ctx.pii.None? || !v.Text? then Refuse(Internal)
      else Put(Text(ctx.pii.value.seal(nonce(f.name), v.s)))
  }

  function WorkOf(ctx: Context, mode: Mode, body: Body, f: Field, nonce: string -> nat): Work {
    if f.name !in body then (if mode.Creating? && f.required then Refuse(BadRequest) else Skip)
    else if body[f.name] == NULL then
      (if f.required then Refuse(BadRequest) else if mode.Creating? then Skip else Put(Null))
    else Stored(ctx, f, body[f.name], nonce)
  }

  /** The first field that is refused decides the answer. */
  function Refusal(ctx: Context, mode: Mode, body: Body, fields: seq<Field>, nonce: string -> nat): (r: Option<Status>)
    ensures r.None? <==> forall i | 0 <= i < |fields| :: !WorkOf(ctx, mode, body, fields[i], nonce).Refuse?
  {
    if fields == [] then None
    else
      var w := WorkOf(ctx, mode, body, fields[0], nonce);
      if w.Refuse? then Some(w.status) else Refusal(ctx, mode, body, fields[1..], nonce)
  }

  /** The declared field of that name, if there is one. */
  function FieldNamed(fields: seq<Field>, name: string): (f: Option<Field>)
    ensures f.Some? ==> f.value in fields && f.value.name == name
    ensures f.None? ==> forall i | 0 <= i < |fields| :: fields[i].name != name
  {
    if fields == [] then None
    else if fields[0].name == name then Some(fields[0])
    else FieldNamed(fields[1..], name)
  }

  lemma {:induction false} FieldNamedIs(fields: seq<Field>, i: nat)
    requires DistinctNames(fields) && i < |fields|
    ensures FieldNamed(fields, fields[i].name) == Some(fields[i])
  {
    if i > 0 { FieldNamedIs(fields[1..], i - 1); }
  }

  function CellFor(ctx: Context, mode: Mode, body: Body, fields: seq<Field>, c: string,
                   nonce: string -> nat): Option<Cell> {
    match FieldNamed(fields, c)
    case None => None
    case Some(f) =>
      var w := WorkOf(ctx, mode, body, f, nonce);
      if w.Put? then Some(w.cell) else None
  }

  // ---- the meaning of the two writes ----------------------------------------------------------

  /** The row a create asks for: its own columns, the owner, the submitted fields, nulls. */
  function CreatedRow(ctx: Context, crud: Crud, columns: set<string>, body: Body, nonce: string -> nat, user: string,
                      env: Env): Row {
    map c | c in columns ::
      if c == ID then Text(env.newId)
      else if c == CREATED_AT || c == UPDATED_AT then Time(env.now)
      else if c == CREATED_BY && crud.ownerScoped then Text(user)
      else
        var cell := CellFor(ctx, Creating, body, crud.fields, c, nonce);
        if cell.Some? then cell.value else Null
  }

  /** The row a patch leaves: the submitted fields and the update time, all else kept. */
  function PatchedRow(ctx: Context, crud: Crud, row: Row, body: Body, nonce: string -> nat, env: Env): Row {
    map c | c in row ::
      if c == UPDATED_AT then Time(env.now)
      else
        var cell := CellFor(ctx, Patching, body, crud.fields, c, nonce);
        if cell.Some? then cell.value else row[c]
  }

  function PatchedRows(ctx: Context, crud: Crud, rows: map<string, Row>, id: string, body: Body,
                       nonce: string -> nat, env: Env): map<string, Row> {
    map r | r in rows ::
      if Meets(rows[r], ID, Text(id)) then PatchedRow(ctx, crud, rows[r], body, nonce, env) else rows[r]
  }

  // ---- building the statements ------------------------------------------------------------------

  /** The columns and values the loops over the fields have collected. */
  ghost predicate Collected(ctx: Context, mode: Mode, body: Body, fields: seq<Field>, nonce: string -> nat,
                            cols: seq<string>, vals: seq<Cell>) {
    && |cols| == |vals| && NoDuplicates(cols)
    && (forall c :: c in cols <==> CellFor(ctx, mode, body, fields, c, nonce).Some?)
    && (forall j | 0 <= j < |cols| :: CellFor(ctx, mode, body, fields, cols[j], nonce) == Some(vals[j]))
  }

  lemma DistinctInit(fields: seq<Field>, f: Field)
    requires DistinctNames(fields + [f])
    ensures DistinctNames(fields) && FieldNamed(fields, f.name).None?
  {
    var all := fields + [f];
    assert all[|fields|] == f;
    forall i, j | 0 <= i < j < |fields| ensures fields[i].name != fields[j].name {
      assert all[i].name != all[j].name;
    }
    forall i | 0 <= i < |fields| ensures fields[i].name != f.name {
      assert all[i].name != all[|fields|].name;
    }
  }

  lemma CellForSnoc(ctx: Context, mode: Mode, body: Body, fields: seq<Field>, f: Field, c: string, nonce: string -> nat)
    requires DistinctNames(fields + [f])
    ensures CellFor(ctx, mode, body, fields + [f], c, nonce)
         == if c == f.name
            then (var w := WorkOf(ctx, mode, body, f, nonce); if w.Put? then Some(w.cell) else None)
            else CellFor(ctx, mode, body, fields, c, nonce)
  {
    var all := fields + [f];
    DistinctInit(fields, f);
    if c == f.name {
      FieldNamedIs(all, |fields|);
    } else if i :| 0 <= i < |fields| && fields[i].name == c {
      assert all[i] == fields[i];
      FieldNamedIs(all, i);
      FieldNamedIs(fields, i);
    } else {
      assert FieldNamed(fields, c).None?;
      assert FieldNamed(all, c).None?;
    }
  }

  lemma CollectNext(ctx: Context, mode: Mode, body: Body, fields: seq<Field>, f: Field, nonce: string -> nat,
                    cols: seq<string>, vals: seq<Cell>)
    requires DistinctNames(fields + [f]) && Collected(ctx, mode, body, fields, nonce, cols, vals)
    ensures var w := WorkOf(ctx, mode, body, f, nonce);
            && (w.Put? ==> Collected(ctx, mode, body, fields + [f], nonce, cols + [f.name], vals + [w.cell]))
            && (!w.Put? ==> Collected(ctx, mode, body, fields + [f], nonce, cols, vals))
  {
    forall c ensures CellFor(ctx, mode, body, fields + [f], c, nonce)
                  == if c == f.name
                     then (var w := WorkOf(ctx, mode, body, f, nonce); if w.Put? then Some(w.cell) else None)
                     else CellFor(ctx, mode, body, fields, c, nonce)
    {
      CellForSnoc(ctx, mode, body, fields, f, c, nonce);
    }
    DistinctInit(fields, f);
    assert f.name !in cols;
  }

  /** The placeholders `$1` to `$n`. */
  function Placeholders(n: nat): (sources: seq<Source>)
    ensures |sources| == n && forall i | 0 <= i < n :: sources[i] == Param(i + 1)
  {
    seq(n, i requires 0 <= i < n => Param(i + 1))
  }

  lemma RefusalAt(ctx: Context, mode: Mode, body: Body, fields: seq<Field>, nonce: string -> nat, i: nat)
    requires i < |fields| && Refusal(ctx, mode, body, fields[..i], nonce).None?
    ensures var w := WorkOf(ctx, mode, body, fields[i], nonce);
            if w.Refuse? then Refusal(ctx, mode, body, fields, nonce) == Some(w.status)
            else Refusal(ctx, mode, body, fields[..i + 1], nonce).None?
  {
    if i == 0 {
      assert fields[..1] == [fields[0]];
    } else {
      assert fields[..i][0] == fields[0] && fields[..i][1..] == fields[1..][..i - 1];
      assert fields[..i + 1][1..] == fields[1..][..i] && fields[..i + 1][0] == fields[0];
      RefusalAt(ctx, mode, body, fields[1..], nonce, i - 1);
    }
  }

  /** One submitted value as it goes into the column. */
  method EncodeField(ctx: Context, f: Field, raw: string, nonce: string -> nat) returns (r: Result<Cell, Status>)
    ensures Stored(ctx, f, raw, nonce) == if r.Ok? then Put(r.value) else Refuse(r.error)
  {
    var read := ctx.read(f.kind, raw);
    if read.None? {
      return Err(BadRequest);
    }
    if !f.encrypted {
      return Ok(read.value);
    }
    if ctx.pii.None? || !read.value.Text? {
      return Err(Internal);
    }
    return Ok(Text(ctx.pii.value.seal(nonce(f.name), read.value.s)));
  }

  /** The submitted columns of a create with their values. */
  method CollectInsert(ctx: Context, crud: Crud, body: Body, nonce: string -> nat)
    returns (r: Result<(seq<string>, seq<Cell>), Status>)
    requires Accepted(crud)
    ensures Refusal(ctx, Creating, body, crud.fields, nonce) == if r.Err? then Some(r.error) else None
    ensures r.Ok? ==> Collected(ctx, Creating, body, crud.fields, nonce, r.value.0, r.value.1)
  {
    var cols: seq<string>, vals: seq<Cell> := [], [];
    for i := 0 to |crud.fields|
      invariant Refusal(ctx, Creating, body, crud.fields[..i], nonce).None?
      invariant Collected(ctx, Creating, body, crud.fields[..i], nonce, cols, vals)
    {
      var f := crud.fields[i];
      assert crud.fields[..i + 1] == crud.fields[..i] + [f];
      RefusalAt(ctx, Creating, body, crud.fields, nonce, i);
      CollectNext(ctx, Creating, body, crud.fields[..i], f, nonce, cols, vals);
      if f.name !in body || body[f.name] == NULL {
        if f.required {
          return Err(BadRequest);
        }
        continue;
      }
      var val := EncodeField(ctx, f, body[f.name], nonce);
      if val.Err? {
        return Err(val.error);
      }
      cols := cols + [f.name];
      vals := vals + [val.value];
    }
    assert crud.fields[..|crud.fields|] == crud.fields;
    return Ok((cols, vals));
  }

  /** The INSERT for a create, or the status it is refused with. */
  method BuildInsert(ctx: Context, crud: Crud, body: Body, nonce: string -> nat, user: string)
    returns (r: Result<(Statement, seq<Cell>), Status>)
    requires Accepted(crud)
    ensures Refusal(ctx, Creating, body, crud.fields, nonce) == if r.Err? then Some(r.error) else None
    ensures r.Ok? ==> InsertFor(ctx, crud, body, nonce, user, r.value.0, r.value.1)
  {
    var collected := CollectInsert(ctx, crud, body, nonce);
    if collected.Err? {
      return Err(collected.error);
    }
    var (cols, vals) := collected.value;
    ghost var fields, cells := cols, vals;
    if crud.ownerScoped {
      cols := cols + [CREATED_BY];
      vals := vals + [Text(user)];
    }
    var values: seq<Source> := [];
    for i := 0 to |cols|
      invariant values == Placeholders(i)
    {
      values := values + [Param(i + 1)];
    }
    assert cols[..|fields|] == fields && vals[..|fields|] == cells;
    return Ok((Insert(cols, values), vals));
  }

  /** The insert binds placeholder i to the i-th column; no column comes twice; and the
      columns are the submitted fields, then the owner. */
  ghost predicate InsertFor(ctx: Context, crud: Crud, body: Body, nonce: string -> nat, user: string, s: Statement,
                            args: seq<Cell>) {
    && s.Insert? && s.values == Placeholders(|s.cols|) && |args| == |s.cols|
    && var n := if crud.ownerScoped then |s.cols| - 1 else |s.cols|;
    && n >= 0 && Collected(ctx, Creating, body, crud.fields, nonce, s.cols[..n], args[..n])
    && (crud.ownerScoped ==> s.cols[n] == CREATED_BY && args[n] == Text(user))
  }

  /** The submitted columns of a patch with their values. */
  method CollectUpdate(ctx: Context, crud: Crud, body: Body, nonce: string -> nat)
    returns (r: Result<(seq<string>, seq<Cell>), Status>)
    requires Accepted(crud)
    ensures Refusal(ctx, Patching, body, crud.fields, nonce) == if r.Err? then Some(r.error) else None
    ensures r.Ok? ==> Collected(ctx, Patching, body, crud.fields, nonce, r.value.0, r.value.1)
  {
    var cols: seq<string>, vals: seq<Cell> := [], [];
    for i := 0 to |crud.fields|
      invariant Refusal(ctx, Patching, body, crud.fields[..i], nonce).None?
      invariant Collected(ctx, Patching, body, crud.fields[..i], nonce, cols, vals)
    {
      var f := crud.fields[i];
      assert crud.fields[..i + 1] == crud.fields[..i] + [f];
      RefusalAt(ctx, Patching, body, crud.fields, nonce, i);
      CollectNext(ctx, Patching, body, crud.fields[..i], f, nonce, cols, vals);
      if f.name !in body {
        continue;
      }
      if body[f.name] == NULL {
        if f.required {
          return Err(BadRequest);
        }
        cols := cols + [f.name];
        vals := vals + [Null];
        continue;
      }
      var val := EncodeField(ctx, f, body[f.name], nonce);
      if val.Err? {
        return Err(val.error);
      }
      cols := cols + [f.name];
      vals := vals + [val.value];
    }
    assert crud.fields[..|crud.fields|] == crud.fields;
    return Ok((cols, vals));
  }

  /** The UPDATE for a patch of row `id`, or the status it is refused with. */
  method BuildUpdate(ctx: Context, crud: Crud, body: Body, nonce: string -> nat, id: string)
    returns (r: Result<(Statement, seq<Cell>), Status>)
    requires Accepted(crud)
    ensures Refusal(ctx, Patching, body, crud.fields, nonce) == if r.Err? then Some(r.error) else None
    ensures r.Ok? ==> UpdateFor(ctx, crud, body, nonce, id, r.value.0, r.value.1)
  {
    var collected := CollectUpdate(ctx, crud, body, nonce);
    if collected.Err? {
      return Err(collected.error);
    }
    var (cols, vals) := collected.value;
    var sets, args := BuildSets(cols, vals, id);
    assert Targets(sets)[..|cols|] == cols && args[..|cols|] == vals;
    return Ok((Update(sets, ID, |args|), args));
  }

  method BuildSets(cols: seq<string>, vals: seq<Cell>, id: string) returns (sets: seq<Assign>, args: seq<Cell>)
    requires |cols| == |vals|
    ensures args == vals + [Text(id)] && |sets| == |cols| + 1
    ensures forall j | 0 <= j < |cols| :: sets[j] == Assign(cols[j], Param(j + 1))
    ensures sets[|cols|] == Assign(UPDATED_AT, Now)
  {
    sets, args := [], [];
    for i := 0 to |cols|
      invariant args == vals[..i] && |sets| == i
      invariant forall j | 0 <= j < i :: sets[j] == Assign(cols[j], Param(j + 1))
    {
      args := args + [vals[i]];
      sets := sets + [Assign(cols[i], Param(i + 1))];
    }
    sets := sets + [Assign(UPDATED_AT, Now)];
    args := args + [Text(id)];
  }

  /** The update sets the submitted fields to their placeholders, then the update time,
      and the last argument is the row's id. */
  ghost predicate UpdateFor(ctx: Context, crud: Crud, body: Body, nonce: string -> nat, id: string, s: Statement,
                            args: seq<Cell>) {
    && s.Update? && s.key == ID && s.param == |args| == |s.sets|
    && var n := |args| - 1;
    && n >= 0 && args[n] == Text(id) && s.sets[n] == Assign(UPDATED_AT, Now)
    && Collected(ctx, Patching, body, crud.fields, nonce, Targets(s.sets)[..n], args[..n])
    && (forall j | 0 <= j < n :: s.sets[j].source == Param(j + 1))
  }

  // ---- the statements mean what was asked ---------------------------------------------------------

  predicate Migrated(crud: Crud, columns: set<string>) {
    Columns(crud) <= columns
  }

  /** A create with no value at all: no field submitted and no owner to record. */
  predicate NothingToInsert(ctx: Context, crud: Crud, body: Body, nonce: string -> nat) {
    !crud.ownerScoped && forall i | 0 <= i < |crud.fields| :: WorkOf(ctx, Creating, body, crud.fields[i], nonce).Skip?
  }

  lemma CellForReserved(ctx: Context, mode: Mode, body: Body, crud: Crud, c: string, nonce: string -> nat)
    requires Accepted(crud) && CellFor(ctx, mode, body, crud.fields, c, nonce).Some?
    ensures c !in RESERVED && c in Columns(crud)
  {
  }

  lemma InsertIsWellFormed(ctx: Context, crud: Crud, body: Body, nonce: string -> nat, user: string, s: Statement,
                           args: seq<Cell>, db: Db)
    requires Accepted(crud) && Migrated(crud, db.columns)
    requires InsertFor(ctx, crud, body, nonce, user, s, args)
    ensures NoDuplicates(s.cols)
    ensures Checked(db, s, args) == if s.cols == [] then Some(Syntax) else None
  {
    var n := if crud.ownerScoped then |s.cols| - 1 else |s.cols|;
    forall j | 0 <= j < n ensures s.cols[j] !in RESERVED && s.cols[j] in Columns(crud) {
      assert s.cols[..n][j] == s.cols[j];
      CellForReserved(ctx, Creating, body, crud, s.cols[j], nonce);
    }
    forall i, j | 0 <= i < j < |s.cols| ensures s.cols[i] != s.cols[j] {
      if j < n { assert s.cols[..n][i] != s.cols[..n][j]; }
    }
    forall k | 1 <= k <= |args| ensures Param(k) in s.values {
      assert s.values[k - 1] == Param(k);
    }
  }

  lemma NoColumnIff(ctx: Context, crud: Crud, body: Body, nonce: string -> nat, user: string, s: Statement,
                    args: seq<Cell>)
    requires Accepted(crud) && Refusal(ctx, Creating, body, crud.fields, nonce).None?
    requires InsertFor(ctx, crud, body, nonce, user, s, args)
    ensures s.cols == [] <==> NothingToInsert(ctx, crud, body, nonce)
  {
    var n := if crud.ownerScoped then |s.cols| - 1 else |s.cols|;
    var fields := s.cols[..n];
    if s.cols == [] {
      forall i | 0 <= i < |crud.fields| ensures WorkOf(ctx, Creating, body, crud.fields[i], nonce).Skip? {
        FieldNamedIs(crud.fields, i);
        assert crud.fields[i].name !in fields;
      }
    } else if !crud.ownerScoped {
      assert fields[0] in fields;
      var f := FieldNamed(crud.fields, fields[0]).value;
      assert WorkOf(ctx, Creating, body, f, nonce).Put?;
    }
  }

  /** Executing the insert adds exactly the row the create asks for; it fails only when
      it has no column at all. */
  lemma InsertMeansCreate(ctx: Context, crud: Crud, body: Body, nonce: string -> nat, user: string, s: Statement,
                          args: seq<Cell>, db: Db, env: Env)
    requires Accepted(crud) && Migrated(crud, db.columns)
    requires Refusal(ctx, Creating, body, crud.fields, nonce).None?
    requires InsertFor(ctx, crud, body, nonce, user, s, args)
    ensures Execute(db, s, args, env)
         == if NothingToInsert(ctx, crud, body, nonce) then Err(Syntax)
            else Ok(db.(rows := db.rows[env.newId := CreatedRow(ctx, crud, db.columns, body, nonce, user, env)]))
  {
    InsertIsWellFormed(ctx, crud, body, nonce, user, s, args, db);
    NoColumnIff(ctx, crud, body, nonce, user, s, args);
    InsertedRow(ctx, crud, body, nonce, user, s, args, db, env);
  }

  lemma InsertedRow(ctx: Context, crud: Crud, body: Body, nonce: string -> nat, user: string, s: Statement,
                    args: seq<Cell>, db: Db, env: Env)
    requires Accepted(crud) && InsertFor(ctx, crud, body, nonce, user, s, args)
    ensures Inserted(db.columns, s.cols, s.values, args, env)
         == CreatedRow(ctx, crud, db.columns, body, nonce, user, env)
  {
    forall c | c in db.columns
      ensures Inserted(db.columns, s.cols, s.values, args, env)[c]
           == CreatedRow(ctx, crud, db.columns, body, nonce, user, env)[c]
    {
      InsertedCell(ctx, crud, body, nonce, user, s, args, db, env, c);
    }
  }

  /** Column `i` of the insert is the owner column, or a submitted field with its value. */
  lemma InsertColumn(ctx: Context, crud: Crud, body: Body, nonce: string -> nat, user: string, s: Statement,
                     args: seq<Cell>, i: nat)
    requires Accepted(crud) && InsertFor(ctx, crud, body, nonce, user, s, args) && i < |s.cols|
    ensures if crud.ownerScoped && i == |s.cols| - 1 then s.cols[i] == CREATED_BY && args[i] == Text(user)
            else s.cols[i] !in RESERVED && CellFor(ctx, Creating, body, crud.fields, s.cols[i], nonce) == Some(args[i])
  {
    var n := if crud.ownerScoped then |s.cols| - 1 else |s.cols|;
    if i < n {
      assert s.cols[..n][i] == s.cols[i] && args[..n][i] == args[i];
      CellForReserved(ctx, Creating, body, crud, s.cols[i], nonce);
    }
  }

  lemma MissingColumn(ctx: Context, crud: Crud, body: Body, nonce: string -> nat, user: string, s: Statement,
                      args: seq<Cell>, c: string)
    requires Accepted(crud) && InsertFor(ctx, crud, body, nonce, user, s, args) && c !in s.cols
    ensures CellFor(ctx, Creating, body, crud.fields, c, nonce).None? && (crud.ownerScoped ==> c != CREATED_BY)
  {
    var n := if crud.ownerScoped then |s.cols| - 1 else |s.cols|;
    assert c !in s.cols[..n];
    assert crud.ownerScoped ==> s.cols[n] in s.cols;
  }

  lemma InsertedCell(ctx: Context, crud: Crud, body: Body, nonce: string -> nat, user: string, s: Statement,
                     args: seq<Cell>, db: Db, env: Env, c: string)
    requires Accepted(crud) && InsertFor(ctx, crud, body, nonce, user, s, args) && c in db.columns
    ensures Inserted(db.columns, s.cols, s.values, args, env)[c]
         == CreatedRow(ctx, crud, db.columns, body, nonce, user, env)[c]
  {
    if c in s.cols {
      var i := IndexOf(s.cols, c);
      assert s.values[i] == Param(i + 1);
      assert ValueOf(s.values[i], args, env) == args[i];
      InsertColumn(ctx, crud, body, nonce, user, s, args, i);
    } else {
      MissingColumn(ctx, crud, body, nonce, user, s, args, c);
    }
  }

  lemma UpdateIsWellFormed(ctx: Context, crud: Crud, body: Body, nonce: string -> nat, id: string, s: Statement,
                           args: seq<Cell>, db: Db)
    requires Accepted(crud) && Migrated(crud, db.columns)
    requires UpdateFor(ctx, crud, body, nonce, id, s, args)
    ensures NoDuplicates(Targets(s.sets)) && Checked(db, s, args).None?
  {
    var n, cols := |args| - 1, Targets(s.sets);
    forall j | 0 <= j < n ensures cols[j] !in RESERVED && cols[j] in Columns(crud) {
      assert cols[..n][j] == cols[j];
      CellForReserved(ctx, Patching, body, crud, cols[j], nonce);
    }
    forall i, j | 0 <= i < j < |cols| ensures cols[i] != cols[j] {
      if j < n { assert cols[..n][i] != cols[..n][j]; }
    }
    var sources := SetSources(s.sets) + [Param(s.param)];
    forall k | 1 <= k <= |args| ensures Param(k) in sources {
      assert sources[if k <= n then k - 1 else |sources| - 1] == Param(k);
    }
  }

  /** Executing the update patches the row of that id, field by field, and no other. */
  lemma UpdateMeansPatch(ctx: Context, crud: Crud, body: Body, nonce: string -> nat, id: string, s: Statement,
                         args: seq<Cell>, db: Db, env: Env)
    requires Accepted(crud) && Migrated(crud, db.columns)
    requires UpdateFor(ctx, crud, body, nonce, id, s, args)
    ensures Execute(db, s, args, env)
         == Ok(db.(rows := PatchedRows(ctx, crud, db.rows, id, body, nonce, env)))
  {
    UpdateIsWellFormed(ctx, crud, body, nonce, id, s, args, db);
    assert ValueOf(Param(s.param), args, env) == Text(id);
    UpdatedRows(ctx, crud, body, nonce, id, s, args, db.rows, env);
  }

  lemma UpdatedRows(ctx: Context, crud: Crud, body: Body, nonce: string -> nat, id: string, s: Statement,
                    args: seq<Cell>, rows: map<string, Row>, env: Env)
    requires Accepted(crud) && UpdateFor(ctx, crud, body, nonce, id, s, args)
    ensures Updated(rows, ID, Text(id), s.sets, args, env) == PatchedRows(ctx, crud, rows, id, body, nonce, env)
  {
    forall r | r in rows
      ensures Assigned(rows[r], s.sets, args, env) == PatchedRow(ctx, crud, rows[r], body, nonce, env)
    {
      AssignedRow(ctx, crud, body, nonce, id, s, args, rows[r], env);
    }
  }

  lemma AssignedRow(ctx: Context, crud: Crud, body: Body, nonce: string -> nat, id: string, s: Statement,
                    args: seq<Cell>, row: Row, env: Env)
    requires Accepted(crud) && UpdateFor(ctx, crud, body, nonce, id, s, args)
    ensures Assigned(row, s.sets, args, env) == PatchedRow(ctx, crud, row, body, nonce, env)
  {
    var n, cols := |args| - 1, Targets(s.sets);
    forall c | c in row
      ensures Assigned(row, s.sets, args, env)[c] == PatchedRow(ctx, crud, row, body, nonce, env)[c]
    {
      if CellFor(ctx, Patching, body, crud.fields, c, nonce).Some? {
        CellForReserved(ctx, Patching, body, crud, c, nonce);
        assert c in cols[..n];
      }
      if c in cols {
        var i := IndexOf(cols, c);
        if i < n {
          assert cols[..n][i] == c && args[..n][i] == args[i];
          CellForReserved(ctx, Patching, body, crud, c, nonce);
        }
      } else {
        assert c !in cols[..n];
        assert cols[n] in cols;
      }
    }
  }
}
