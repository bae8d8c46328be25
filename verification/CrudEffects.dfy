/** What a request does to a CRUD table, told from the manifest, the body and the rows
    alone. */
module CrudEffects {
  import opened Wrappers
  import opened Crypto
  import opened CrudManifest
  import opened CrudSql
  import opened CrudRequests
  import opened CrudRows
  import opened CrudRuns

  // ---- when a body is refused -------------------------------------------------------------


  /** The body gives the field a value. */
  predicate Gives(f: Field, body: Body) {
    f.name in body && body[f.name] != "null"
  }

  predicate Readable(ctx: Context, f: Field, body: Body)
    requires Gives(f, body)
  {
    ctx.read(f.kind, body[f.name]).Some?
  }

  /** A value that cannot be read, or a required field without one: missing or null in a
      create, null in a patch. */
  predicate Wrong(ctx: Context, f: Field, body: Body, patch: bool) {
    if Gives(f, body) then !Readable(ctx, f, body)
    else f.required && (!patch || f.name in body)
  }

  /** A value to be encrypted while no key is set. */
  predicate Keyless(ctx: Context, f: Field, body: Body) {
    Gives(f, body) && Readable(ctx, f, body) && f.encrypted && ctx.pii.None?
  }

  predicate Fine(ctx: Context, f: Field, body: Body, patch: bool) {
    !Wrong(ctx, f, body, patch) && !Keyless(ctx, f, body)
  }

  predicate AllFine(ctx: Context, crud: Crud, body: Body, patch: bool) {
    forall i | 0 <= i < |crud.fields| :: Fine(ctx, crud.fields[i], body, patch)
  }

  /** Field `i` is the first that is not fine, and answered with `status`. */
  predicate FirstFault(ctx: Context, crud: Crud, body: Body, patch: bool, i: nat, status: Status)
    requires i < |crud.fields|
  {
    && !Fine(ctx, crud.fields[i], body, patch)
    && (forall j | 0 <= j < i :: Fine(ctx, crud.fields[j], body, patch))
    && status == if Wrong(ctx, crud.fields[i], body, patch) then BadRequest else Internal
  }

  lemma WorkIs(ctx: Context, crud: Crud, body: Body, nonce: string -> nat, patch: bool, i: nat)
    requires Accepted(crud) && Reads(ctx) && i < |crud.fields|
    ensures var f, w := crud.fields[i], WorkOf(ctx, if patch then Patching else Creating, body, crud.fields[i], nonce);
            && (Wrong(ctx, f, body, patch) ==> w == Refuse(BadRequest))
            && (Keyless(ctx, f, body) ==> w == Refuse(Internal))
            && (Fine(ctx, f, body, patch) ==> !w.Refuse?)
  {
    assert FieldAccepted(crud.fields[i]);
  }

  /** A request is refused exactly when some field is not fine. The first such field decides
      whether as a bad request or, for want of a key, as an internal error. */
  lemma {:induction false} RefusedIff(ctx: Context, crud: Crud, body: Body, nonce: string -> nat, patch: bool)
    requires Accepted(crud) && Reads(ctx)
    ensures var r := Refusal(ctx, if patch then Patching else Creating, body, crud.fields, nonce);
            && (r.None? <==> AllFine(ctx, crud, body, patch))
            && (r.Some? ==> exists i :: 0 <= i < |crud.fields| && FirstFault(ctx, crud, body, patch, i, r.value))
  {
    var mode := if patch then Patching else Creating;
    for i := 0 to |crud.fields|
      invariant forall j | 0 <= j < i :: Fine(ctx, crud.fields[j], body, patch)
      invariant Refusal(ctx, mode, body, crud.fields[..i], nonce).None?
    {
      WorkIs(ctx, crud, body, nonce, patch, i);
      RefusalAt(ctx, mode, body, crud.fields, nonce, i);
      if !Fine(ctx, crud.fields[i], body, patch) {
        assert FirstFault(ctx, crud, body, patch, i, Refusal(ctx, mode, body, crud.fields, nonce).value);
        return;
      }
    }
    assert crud.fields[..|crud.fields|] == crud.fields;
  }

  // ---- values ------------------------------------------------------------------------------------

  lemma CreatedValue(ctx: Context, crud: Crud, body: Body, nonce: string -> nat, i: nat)
    requires Accepted(crud) && Reads(ctx) && ctx.pii.Some? && Lawful(ctx.pii.value)
    requires i < |crud.fields| && AllFine(ctx, crud, body, false)
    ensures var f := crud.fields[i];
            var cell := CellFor(ctx, Creating, body, crud.fields, f.name, nonce);
            if Gives(f, body)
            then cell.Some? && Some(Opened(ctx, crud.fields, f.name, cell.value)) == ctx.read(f.kind, body[f.name])
            else cell.None?
  {
    FieldNamedIs(crud.fields, i);
    assert FieldAccepted(crud.fields[i]) && Fine(ctx, crud.fields[i], body, false);
  }

  lemma PatchedValue(ctx: Context, crud: Crud, body: Body, nonce: string -> nat, i: nat)
    requires Accepted(crud) && Reads(ctx) && ctx.pii.Some? && Lawful(ctx.pii.value)
    requires i < |crud.fields| && AllFine(ctx, crud, body, true)
    ensures var f := crud.fields[i];
            var cell := CellFor(ctx, Patching, body, crud.fields, f.name, nonce);
            && (f.name !in body ==> cell.None?)
            && (f.name in body ==>
                  && cell.Some?
                  && var shown := Opened(ctx, crud.fields, f.name, cell.value);
                     if body[f.name] == "null" then shown == Null
                     else Some(shown) == ctx.read(f.kind, body[f.name]))
  {
    FieldNamedIs(crud.fields, i);
    assert FieldAccepted(crud.fields[i]) && Fine(ctx, crud.fields[i], body, true);
  }

  // ---- the four requests ----------------------------------------------------------------------------

  /** The row as it opens: the submitted values and nulls, its id, the creation time twice,
      the owner, and nothing in any other column. */
  ghost predicate FreshRow(ctx: Context, crud: Crud, columns: set<string>, body: Body, user: string, env: Env,
                           row: Row) {
    && Migrated(crud, columns) && row.Keys == columns
    && row["id"] == Text(env.newId)
    && row["created_at"] == Time(env.now) && row["updated_at"] == Time(env.now)
    && (crud.ownerScoped ==> row["created_by"] == Text(user))
    && (forall i | 0 <= i < |crud.fields| && crud.fields[i].name in columns ::
          var f := crud.fields[i];
          if Gives(f, body) then Some(row[f.name]) == ctx.read(f.kind, body[f.name]) else row[f.name] == Null)
  }

  /** Whether a create has anything to store. */
  predicate Stores(crud: Crud, body: Body) {
    crud.ownerScoped || exists i :: 0 <= i < |crud.fields| && Gives(crud.fields[i], body)
  }

  lemma CreatedTable(ctx: Context, crud: Crud, db: Db, body: Body, nonce: string -> nat, user: string, env: Env)
    requires Accepted(crud) && Reads(ctx)
    ensures Creates(ctx, crud, db, body, nonce, user, env)
         == if AllFine(ctx, crud, body, false) && Stores(crud, body)
            then db.(rows := db.rows[env.newId := CreatedRow(ctx, crud, db.columns, body, nonce, user, env)])
            else db
  {
    RefusedIff(ctx, crud, body, nonce, false);
    if AllFine(ctx, crud, body, false) { NothingIff(ctx, crud, body, nonce); }
  }

  lemma CreatedRowIsReadable(ctx: Context, crud: Crud, columns: set<string>, body: Body, nonce: string -> nat,
                             user: string, env: Env)
    requires Accepted(crud) && Reads(ctx) && AllFine(ctx, crud, body, false)
    requires ctx.pii.Some? ==> Lawful(ctx.pii.value)
    ensures Opens(ctx, crud.fields, CreatedRow(ctx, crud, columns, body, nonce, user, env))
  {
    RefusedIff(ctx, crud, body, nonce, false);
    CreatedRowHolds(ctx, crud, columns, body, nonce, user, env);
    HeldRowOpens(ctx, crud, CreatedRow(ctx, crud, columns, body, nonce, user, env));
  }

  /** A create adds one fresh row, or nothing if it is refused or has nothing to store. */
  lemma CreateDoes(ctx: Context, crud: Crud, w: World, user: string, body: Body, nonce: string -> nat, env: Env)
    requires Accepted(crud) && Reads(ctx) && ctx.pii.Some? && Lawful(ctx.pii.value)
    requires Inv(ctx, crud, w) && env.newId !in w.issued
    ensures var t := Step(ctx, crud, w, Create(user, body, nonce, env));
            && t.db.columns == w.db.columns && t.checked == w.checked
            && if AllFine(ctx, crud, body, false) && Stores(crud, body)
               then
                 && env.newId in t.db.rows && t.db.rows - {env.newId} == w.db.rows
                 && Opens(ctx, crud.fields, t.db.rows[env.newId])
                 && FreshRow(ctx, crud, w.db.columns, body, user, env,
                             OpenedRow(ctx, crud.fields, t.db.rows[env.newId]))
               else t.db == w.db
  {
    CreatedTable(ctx, crud, w.db, body, nonce, user, env);
    if AllFine(ctx, crud, body, false) {
      CreatedRowIsFresh(ctx, crud, w.db.columns, body, nonce, user, env);
      CreatedRowIsReadable(ctx, crud, w.db.columns, body, nonce, user, env);
    }
  }

  lemma NothingIff(ctx: Context, crud: Crud, body: Body, nonce: string -> nat)
    requires Accepted(crud) && Reads(ctx) && AllFine(ctx, crud, body, false)
    ensures NothingToInsert(ctx, crud, body, nonce)
       <==> !Stores(crud, body)
  {
    forall i | 0 <= i < |crud.fields|
      ensures WorkOf(ctx, Creating, body, crud.fields[i], nonce).Skip? <==> !Gives(crud.fields[i], body)
    {
      assert FieldAccepted(crud.fields[i]) && Fine(ctx, crud.fields[i], body, false);
    }
  }

  lemma CreatedRowIsFresh(ctx: Context, crud: Crud, columns: set<string>, body: Body, nonce: string -> nat,
                          user: string, env: Env)
    requires Accepted(crud) && Migrated(crud, columns) && Reads(ctx) && ctx.pii.Some? && Lawful(ctx.pii.value)
    requires AllFine(ctx, crud, body, false)
    ensures FreshRow(ctx, crud, columns, body, user, env,
                     OpenedRow(ctx, crud.fields, CreatedRow(ctx, crud, columns, body, nonce, user, env)))
  {
    var row := CreatedRow(ctx, crud, columns, body, nonce, user, env);
    ReservedOpens(ctx, crud, row, "id");
    ReservedOpens(ctx, crud, row, "created_at");
    ReservedOpens(ctx, crud, row, "updated_at");
    if crud.ownerScoped { ReservedOpens(ctx, crud, row, "created_by"); }
    var back := OpenedRow(ctx, crud.fields, row);
    forall i | 0 <= i < |crud.fields| && crud.fields[i].name in columns
      ensures var f := crud.fields[i];
              if Gives(f, body) then Some(back[f.name]) == ctx.read(f.kind, body[f.name]) else back[f.name] == Null
    {
      CreatedFieldIs(ctx, crud, columns, body, nonce, user, env, i);
    }
  }

  lemma CreatedFieldIs(ctx: Context, crud: Crud, columns: set<string>, body: Body, nonce: string -> nat,
                       user: string, env: Env, i: nat)
    requires Accepted(crud) && Reads(ctx) && ctx.pii.Some? && Lawful(ctx.pii.value)
    requires i < |crud.fields| && AllFine(ctx, crud, body, false) && crud.fields[i].name in columns
    ensures var f := crud.fields[i];
            var back := OpenedRow(ctx, crud.fields, CreatedRow(ctx, crud, columns, body, nonce, user, env));
            if Gives(f, body) then Some(back[f.name]) == ctx.read(f.kind, body[f.name]) else back[f.name] == Null
  {
    assert FieldAccepted(crud.fields[i]);
    CreatedValue(ctx, crud, body, nonce, i);
    FieldNamedIs(crud.fields, i);
  }

  predicate Undeclared(crud: Crud, c: string) {
    forall i | 0 <= i < |crud.fields| :: crud.fields[i].name != c
  }

  /** How a patched row opens, against how it opened before: unnamed fields are kept, null
      clears, a value replaces; the update time is new and all other columns are kept. */
  ghost predicate Repaired(ctx: Context, crud: Crud, body: Body, env: Env, before: Row, after: Row) {
    && after.Keys == before.Keys
    && ("updated_at" in before ==> after["updated_at"] == Time(env.now))
    && (forall i | 0 <= i < |crud.fields| && crud.fields[i].name in before ::
          var f := crud.fields[i];
          if f.name !in body then after[f.name] == before[f.name]
          else if body[f.name] == "null" then after[f.name] == Null
          else Some(after[f.name]) == ctx.read(f.kind, body[f.name]))
    && (forall c | c in before && c != "updated_at" && Undeclared(crud, c) :: after[c] == before[c])
  }

  lemma PatchedRowIsRepaired(ctx: Context, crud: Crud, row: Row, body: Body, nonce: string -> nat, env: Env)
    requires Accepted(crud) && Reads(ctx) && ctx.pii.Some? && Lawful(ctx.pii.value)
    requires AllFine(ctx, crud, body, true)
    ensures Repaired(ctx, crud, body, env, OpenedRow(ctx, crud.fields, row),
                     OpenedRow(ctx, crud.fields, PatchedRow(ctx, crud, row, body, nonce, env)))
  {
    var patched := PatchedRow(ctx, crud, row, body, nonce, env);
    var before, after := OpenedRow(ctx, crud.fields, row), OpenedRow(ctx, crud.fields, patched);
    if "updated_at" in row { ReservedOpens(ctx, crud, patched, "updated_at"); }
    forall i | 0 <= i < |crud.fields| && crud.fields[i].name in row
      ensures var f := crud.fields[i];
              if f.name !in body then after[f.name] == before[f.name]
              else if body[f.name] == "null" then after[f.name] == Null
              else Some(after[f.name]) == ctx.read(f.kind, body[f.name])
    {
      PatchedFieldIs(ctx, crud, row, body, nonce, env, i);
    }
    forall c | c in row && c != "updated_at" && Undeclared(crud, c)
      ensures after[c] == before[c]
    {
      assert FieldNamed(crud.fields, c).None?;
    }
  }

  lemma PatchedFieldIs(ctx: Context, crud: Crud, row: Row, body: Body, nonce: string -> nat, env: Env, i: nat)
    requires Accepted(crud) && Reads(ctx) && ctx.pii.Some? && Lawful(ctx.pii.value)
    requires i < |crud.fields| && AllFine(ctx, crud, body, true) && crud.fields[i].name in row
    ensures var f, before := crud.fields[i], OpenedRow(ctx, crud.fields, row);
            var after := OpenedRow(ctx, crud.fields, PatchedRow(ctx, crud, row, body, nonce, env));
            if f.name !in body then after[f.name] == before[f.name]
            else if body[f.name] == "null" then after[f.name] == Null
            else Some(after[f.name]) == ctx.read(f.kind, body[f.name])
  {
    assert FieldAccepted(crud.fields[i]);
    PatchedValue(ctx, crud, body, nonce, i);
  }

  lemma PatchedTable(ctx: Context, crud: Crud, w: World, user: string, id: string, body: Body, nonce: string -> nat,
                     env: Env)
    requires Reads(ctx) && Accepted(crud) && Inv(ctx, crud, w)
    ensures var t := Step(ctx, crud, w, Patch(user, id, body, nonce, env));
            && t.db.columns == w.db.columns && t.checked == w.checked && t.db.rows.Keys == w.db.rows.Keys
            && (forall r | r in w.db.rows :: t.db.rows[r]
                  == if r == id && (user, id) in w.checked && AllFine(ctx, crud, body, true)
                     then PatchedRow(ctx, crud, w.db.rows[r], body, nonce, env) else w.db.rows[r])
  {
    RefusedIff(ctx, crud, body, nonce, true);
    var a := Patch(user, id, body, nonce, env);
    forall r ensures Find(Step(ctx, crud, w, a).db, r) == RowAfter(ctx, crud, w, a, r) {
      StepIsRowAfter(ctx, crud, w, a, r);
    }
  }

  lemma PatchedRowIsReadable(ctx: Context, crud: Crud, row: Row, body: Body, nonce: string -> nat, env: Env)
    requires Reads(ctx) && Accepted(crud) && RowHolds(ctx, crud, row) && AllFine(ctx, crud, body, true)
    requires ctx.pii.Some? ==> Lawful(ctx.pii.value)
    ensures Opens(ctx, crud.fields, PatchedRow(ctx, crud, row, body, nonce, env))
  {
    RefusedIff(ctx, crud, body, nonce, true);
    PatchedRowHolds(ctx, crud, row, body, nonce, env);
    HeldRowOpens(ctx, crud, PatchedRow(ctx, crud, row, body, nonce, env));
  }

  /** A patch whose ownership check has passed repairs that row and no other, or changes
      nothing if the body is refused; without the check it changes nothing. */
  lemma PatchDoes(ctx: Context, crud: Crud, w: World, user: string, id: string, body: Body, nonce: string -> nat,
                  env: Env)
    requires Accepted(crud) && Reads(ctx) && ctx.pii.Some? && Lawful(ctx.pii.value) && Inv(ctx, crud, w)
    ensures var t := Step(ctx, crud, w, Patch(user, id, body, nonce, env));
            && t.db.columns == w.db.columns && t.checked == w.checked && t.db.rows.Keys == w.db.rows.Keys
            && (forall r | r in w.db.rows && r != id :: t.db.rows[r] == w.db.rows[r])
            && (id in w.db.rows ==>
                  if (user, id) in w.checked && AllFine(ctx, crud, body, true)
                  then
                    && Opens(ctx, crud.fields, t.db.rows[id])
                    && Repaired(ctx, crud, body, env, OpenedRow(ctx, crud.fields, w.db.rows[id]),
                                OpenedRow(ctx, crud.fields, t.db.rows[id]))
                  else t.db.rows[id] == w.db.rows[id])
  {
    PatchedTable(ctx, crud, w, user, id, body, nonce, env);
    if id in w.db.rows && (user, id) in w.checked && AllFine(ctx, crud, body, true) {
      PatchedRowIsRepaired(ctx, crud, w.db.rows[id], body, nonce, env);
      PatchedRowIsReadable(ctx, crud, w.db.rows[id], body, nonce, env);
    }
  }

  /** A deletion whose check has passed removes that row only. */
  lemma RemoveDoes(ctx: Context, crud: Crud, w: World, user: string, id: string)
    requires Inv(ctx, crud, w)
    ensures var t := Step(ctx, crud, w, Remove(user, id));
            t == if (user, id) in w.checked then w.(db := w.db.(rows := w.db.rows - {id})) else w
  {
    assert Without(w.db.rows, ID, Text(id)) == w.db.rows - {id};
  }

  /** The check passes for the owner, for everybody on a shared table, and for nobody else;
      it tells a missing row from somebody else's. */
  lemma CheckDoes(ctx: Context, crud: Crud, w: World, user: string, id: string)
    requires Inv(ctx, crud, w)
    ensures var answer := Owns(crud, w.db, user, id);
            && (answer == Some(NotFound) <==> id !in w.db.rows)
            && (answer == Some(Forbidden) <==>
                  id in w.db.rows && crud.ownerScoped && w.db.rows[id]["created_by"] != Text(user))
            && (answer.None? <==>
                  id in w.db.rows && (crud.ownerScoped ==> w.db.rows[id]["created_by"] == Text(user)))
            && Step(ctx, crud, w, Check(user, id))
               == if answer.None? then w.(checked := w.checked + {(user, id)}) else w
  {
  }

  /** A row of an owner-scoped table without the caller's name in it is nobody's to touch. */
  lemma OtherwiseNobody(crud: Crud, db: Db, user: string, id: string)
    requires crud.ownerScoped && id in db.rows
    requires "created_by" !in db.rows[id] || db.rows[id]["created_by"] != Text(user)
    ensures Owns(crud, db, user, id).Some?
  {
  }

  /** How one stored cell is shown: an encrypted text by what it opens to. Null and the empty
      text stay; anything else that does not open, or no key, fails the request. */
  lemma CellOpensTo(ctx: Context, f: Field, cell: Cell)
    ensures OpenCell(ctx, f, cell)
         == if !f.encrypted || cell == Null || cell == Text("") then Some(cell)
            else if cell.Text? && ctx.pii.Some? && ctx.pii.value.open(cell.s).Some?
                 then Some(Text(ctx.pii.value.open(cell.s).value))
            else None
  {
  }

  // ---- manifests --------------------------------------------------------------------------------------

  predicate LowerCase(c: char) {
    'a' <= c <= 'z'
  }

  /** One of the shape [a-z][a-z0-9_]*. */
  predicate PlainName(s: string) {
    && |s| > 0 && LowerCase(s[0])
    && forall i | 0 <= i < |s| :: LowerCase(s[i]) || '0' <= s[i] <= '9' || s[i] == '_'
  }

  /** A manifest is accepted exactly when all names are plain, none is one of Core's four or
      declared twice, the kinds are the eight known ones and only text is encrypted. */
  lemma AcceptedMeans(crud: Crud)
    ensures Accepted(crud) <==>
              && PlainName(crud.table)
              && (forall i | 0 <= i < |crud.fields| ::
                    var f := crud.fields[i];
                    && PlainName(f.name) && f.name !in {"id", "created_at", "updated_at", "created_by"}
                    && f.kind in {"string", "text", "integer", "float", "boolean", "date", "datetime", "uuid"}
                    && (f.encrypted ==> f.kind in {"string", "text"}))
              && (forall i, j | 0 <= i < j < |crud.fields| :: crud.fields[i].name != crud.fields[j].name)
  {
    PlainIsIdentifier(crud.table);
    forall i | 0 <= i < |crud.fields| ensures PlainName(crud.fields[i].name) <==> Identifier(crud.fields[i].name) {
      PlainIsIdentifier(crud.fields[i].name);
    }
  }

  lemma PlainIsIdentifier(s: string)
    ensures PlainName(s) <==> Identifier(s)
  {
    if PlainName(s) {
      forall c | c in s ensures 'a' <= c <= 'z' || '0' <= c <= '9' || c == '_' {
        var i :| 0 <= i < |s| && s[i] == c;
      }
    }
    if Identifier(s) {
      forall i | 0 <= i < |s| ensures LowerCase(s[i]) || '0' <= s[i] <= '9' || s[i] == '_' {
        assert s[i] in s;
      }
    }
  }
}
