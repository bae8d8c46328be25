/** The request handlers of one CRUD table, running their statements against it. */
module CrudServer {
  import opened Wrappers
  import opened Crypto
  import opened CrudManifest
  import opened CrudSql
  import opened CrudRequests
  import opened CrudRows
  import opened CrudRuns
  import opened CrudListing

  class Table {
    const crud: Crud
    const ctx: Context
    const columns: set<string>
    var rows: map<string, Row>

    ghost function Db(): Db
      reads this
    {
      CrudSql.Db(columns, rows)
    }

    /** The manifest was accepted and the migration made its columns. */
    ghost predicate Valid()
      reads this
    {
      && Accepted(crud) && Migrated(crud, columns)
      && (forall id | id in rows :: RowFits(crud, columns, id, rows[id]))
    }

    constructor (crud: Crud, ctx: Context, columns: set<string>)
      requires Accepted(crud) && Migrated(crud, columns)
      ensures Valid() && Db() == CrudSql.Db(columns, map[]) && this.crud == crud && this.ctx == ctx
    {
      this.crud, this.ctx, this.columns := crud, ctx, columns;
      rows := map[];
    }

    /** Runs one statement; nothing changes if the database refuses it. */
    method Exec(s: Statement, args: seq<Cell>, env: Env) returns (error: Option<SqlError>)
      modifies this
      ensures var after := Execute(old(Db()), s, args, env);
              if after.Ok? then error.None? && Db() == after.value
              else error == Some(after.error) && Db() == old(Db())
    {
      var after := Execute(CrudSql.Db(columns, rows), s, args, env);
      if after.Err? {
        return Some(after.error);
      }
      rows := after.value.rows;
      return None;
    }

    /** SELECT ... WHERE id = $1, then the owner against the caller. */
    method OwnsCrudRow(user: string, id: string) returns (status: Option<Status>)
      requires Valid()
      ensures status == Owns(crud, Db(), user, id)
    {
      var ids := Matching(CrudSql.Db(columns, rows), Some(Filter(ID, 1)), [Text(id)]);
      assert ValueOf(Param(1), [Text(id)], Env("", 0)) == Text(id);
      assert forall r :: r in ids <==> r in rows && r == id;
      if ids == {} {
        return Some(NotFound);
      }
      if !crud.ownerScoped {
        return None;
      }
      var found :| found in ids;
      var owner := rows[found][CREATED_BY];
      if !owner.Text? {
        return Some(Internal);
      }
      return if owner.s != user then Some(Forbidden) else None;
    }

    /** `order` is how the database happens to order the rows its WHERE clause selects. */
    method List(user: string, pageSize: Option<int>, page: Option<int>, order: seq<string>)
      returns (out: Result<seq<Row>, Status>)
      requires Valid()
      requires Delivers(Db(), OwnFilter(crud), OwnArgs(crud, user), order)
      ensures Selects(crud, Db(), user, order)
      ensures out == PageOf(ctx, crud, Db(), order, PageSize(pageSize), PageNumber(page))
      ensures crud.ownerScoped && out.Ok? ==>
                forall i | 0 <= i < |out.value| :: CREATED_BY in out.value[i] && out.value[i][CREATED_BY] == Text(user)
    {
      ListSelectsVisible(crud, Db(), user, order);
      if PageNumber(page) > MAX_PAGE {
        return Err(BadRequest);
      }
      var offset := (PageNumber(page) - 1) * PageSize(pageSize);
      var q := Query(SelectColumns(crud), OwnFilter(crud), PageSize(pageSize), offset);
      var fetched := Answer(CrudSql.Db(columns, rows), q, OwnArgs(crud, user), order);
      assert fetched == PageRows(crud, Db(), order, PageSize(pageSize), PageNumber(page));
      var shown := OpenAll(fetched);
      PageShowsOwner(ctx, crud, Db(), user, order, PageSize(pageSize), PageNumber(page));
      if shown.None? {
        return Err(Internal);
      }
      return Ok(shown.value);
    }

    method OpenAll(fetched: seq<Row>) returns (r: Option<seq<Row>>)
      requires Accepted(crud)
      ensures r == if AllOpen(ctx, crud, fetched) then Some(OpenedRows(ctx, crud, fetched)) else None
    {
      var out: seq<Row> := [];
      for i := 0 to |fetched|
        invariant |out| == i
        invariant forall j | 0 <= j < i ::
                    Opens(ctx, crud.fields, fetched[j]) && out[j] == OpenedRow(ctx, crud.fields, fetched[j])
      {
        var shown := DecryptCrudRow(ctx, crud, fetched[i]);
        if shown.None? {
          return None;
        }
        out := out + [shown.value];
      }
      assert out == OpenedRows(ctx, crud, fetched);
      return Some(out);
    }

    method CreateCrudRow(user: string, body: Option<Body>, nonce: string -> nat, env: Env)
      returns (out: Result<Row, Status>)
      requires Valid() && env.newId !in rows
      modifies this
      ensures Valid()
      ensures body.None? ==> out == Err(BadRequest) && Db() == old(Db())
      ensures body.Some? ==>
                var refusal := Refusal(ctx, Creating, body.value, crud.fields, nonce);
                && Db() == Creates(ctx, crud, old(Db()), body.value, nonce, user, env)
                && (refusal.Some? ==> out == Err(refusal.value))
                && (refusal.None? && NothingToInsert(ctx, crud, body.value, nonce) ==> out == Err(Internal))
                && (refusal.None? && !NothingToInsert(ctx, crud, body.value, nonce) ==>
                      var fetched := Projected(rows[env.newId], SelectColumns(crud));
                      out == if Opens(ctx, crud.fields, fetched) then Ok(ShownRow(ctx, crud, rows[env.newId]))
                             else Err(Internal))
    {
      if body.None? {
        return Err(BadRequest);
      }
      var built := BuildInsert(ctx, crud, body.value, nonce, user);
      if built.Err? {
        return Err(built.error);
      }
      InsertMeansCreate(ctx, crud, body.value, nonce, user, built.value.0, built.value.1, Db(), env);
      CreatedRowFits(ctx, crud, columns, body.value, nonce, user, env);
      var error := Exec(built.value.0, built.value.1, env);
      if error.Some? {
        return Err(Internal);
      }
      out := Respond(rows[env.newId]);
    }

    /** The RETURNING columns of a row, decrypted. */
    method Respond(row: Row) returns (out: Result<Row, Status>)
      requires Accepted(crud)
      ensures var fetched := Projected(row, SelectColumns(crud));
              out == if Opens(ctx, crud.fields, fetched) then Ok(ShownRow(ctx, crud, row)) else Err(Internal)
    {
      var shown := DecryptCrudRow(ctx, crud, Projected(row, SelectColumns(crud)));
      return if shown.None? then Err(Internal) else Ok(shown.value);
    }

    method UpdateCrudRow(user: string, id: string, body: Option<Body>, nonce: string -> nat, env: Env)
      returns (status: Option<Status>)
      requires Valid()
      modifies this
      ensures Valid()
      ensures var owns := Owns(crud, old(Db()), user, id);
              if owns.Some? then status == owns && Db() == old(Db())
              else if body.None? then status == Some(BadRequest) && Db() == old(Db())
              else && status == Refusal(ctx, Patching, body.value, crud.fields, nonce)
                   && Db() == Patches(ctx, crud, old(Db()), id, body.value, nonce, env)
    {
      var owns := OwnsCrudRow(user, id);
      if owns.Some? {
        return owns;
      }
      if body.None? {
        return Some(BadRequest);
      }
      var built := BuildUpdate(ctx, crud, body.value, nonce, id);
      if built.Err? {
        return Some(built.error);
      }
      UpdateMeansPatch(ctx, crud, body.value, nonce, id, built.value.0, built.value.1, Db(), env);
      PatchedRowsFit(ctx, crud, columns, rows, id, body.value, nonce, env);
      var error := Exec(built.value.0, built.value.1, env);
      return if error.Some? then Some(Internal) else None;
    }

    method DeleteCrudRow(user: string, id: string, env: Env) returns (status: Option<Status>)
      requires Valid()
      modifies this
      ensures Valid()
      ensures status == Owns(crud, old(Db()), user, id)
      ensures Db() == if status.Some? then old(Db()) else Deletes(old(Db()), id)
    {
      var owns := OwnsCrudRow(user, id);
      if owns.Some? {
        return owns;
      }
      assert Bound([Param(1)], [Text(id)]) by { assert [Param(1)][0] == Param(1); }
      var error := Exec(Delete(ID, 1), [Text(id)], env);
      return None;
    }
  }

  lemma PatchedRowsFit(ctx: Context, crud: Crud, columns: set<string>, rows: map<string, Row>, id: string,
                       body: Body, nonce: string -> nat, env: Env)
    requires Accepted(crud) && Migrated(crud, columns)
    requires forall r | r in rows :: RowFits(crud, columns, r, rows[r])
    ensures var patched := PatchedRows(ctx, crud, rows, id, body, nonce, env);
            forall r | r in patched :: RowFits(crud, columns, r, patched[r])
  {
    forall r | r in rows ensures RowFits(crud, columns, r, PatchedRow(ctx, crud, rows[r], body, nonce, env)) {
      PatchedRowFits(ctx, crud, columns, r, rows[r], body, nonce, env);
    }
  }
}
