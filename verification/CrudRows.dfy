/** Encrypted columns: how a stored row is opened for a client, and that sealing and
    opening cancel out, so that clients see the table as if nothing were encrypted. */
module CrudRows {
  import opened Wrappers
  import opened Crypto
  import opened CrudManifest
  import opened CrudSql
  import opened CrudRequests

  /** What a client gets for one stored cell; none if it cannot be decrypted. */
  function OpenCell(ctx: Context, f: Field, cell: Cell): Option<Cell> {
    if !f.encrypted || cell == Null then Some(cell)
    else if !cell.Text? then None
    else if cell.s == "" then Some(cell)
    else if ctx.pii.None? then None
    else
      match ctx.pii.value.open(cell.s)
      case None => None
      case Some(plain) => Some(Text(plain))
  }

  function Opened(ctx: Context, fields: seq<Field>, c: string, cell: Cell): Cell {
    var f := FieldNamed(fields, c);
    if f.Some? && OpenCell(ctx, f.value, cell).Some? then OpenCell(ctx, f.value, cell).value else cell
  }

  function OpenedRow(ctx: Context, fields: seq<Field>, row: Row): Row {
    map c | c in row :: Opened(ctx, fields, c, row[c])
  }

  predicate Opens(ctx: Context, fields: seq<Field>, row: Row) {
    forall i | 0 <= i < |fields| && fields[i].name in row :: OpenCell(ctx, fields[i], row[fields[i].name]).Some?
  }

  lemma OpenedNext(ctx: Context, fields: seq<Field>, f: Field, c: string, cell: Cell)
    requires DistinctNames(fields + [f])
    ensures Opened(ctx, fields + [f], c, cell)
         == if c == f.name then (if OpenCell(ctx, f, cell).Some? then OpenCell(ctx, f, cell).value else cell)
            else Opened(ctx, fields, c, cell)
    ensures c == f.name ==> Opened(ctx, fields, c, cell) == cell
  {
    var all := fields + [f];
    DistinctInit(fields, f);
    if c == f.name {
      FieldNamedIs(all, |fields|);
    } else if i :| 0 <= i < |fields| && fields[i].name == c {
      assert all[i] == fields[i];
      FieldNamedIs(all, i);
      FieldNamedIs(fields, i);
    } else {
      assert FieldNamed(fields, c).None? && FieldNamed(all, c).None?;
    }
  }

  lemma OpenedRowNext(ctx: Context, fields: seq<Field>, f: Field, row: Row)
    requires DistinctNames(fields + [f])
    ensures var before, after := OpenedRow(ctx, fields, row), OpenedRow(ctx, fields + [f], row);
            && (f.name in row ==> before[f.name] == row[f.name])
            && (f.name !in row || !f.encrypted ==> after == before)
            && (f.name in row && OpenCell(ctx, f, row[f.name]).Some? ==>
                  after == before[f.name := OpenCell(ctx, f, row[f.name]).value])
  {
    forall c | c in row
      ensures OpenedRow(ctx, fields + [f], row)[c]
           == if c == f.name then (if OpenCell(ctx, f, row[c]).Some? then OpenCell(ctx, f, row[c]).value else row[c])
              else OpenedRow(ctx, fields, row)[c]
    {
      OpenedNext(ctx, fields, f, c, row[c]);
    }
    if f.name in row { OpenedNext(ctx, fields, f, f.name, row[f.name]); }
  }

  method DecryptCell(ctx: Context, f: Field, cell: Cell) returns (r: Option<Cell>)
    requires f.encrypted
    ensures r == OpenCell(ctx, f, cell)
  {
    if cell == Null {
      return Some(cell);
    }
    if !cell.Text? {
      return None;
    }
    if cell.s == "" {
      return Some(cell);
    }
    if ctx.pii.None? {
      return None;
    }
    var plain := ctx.pii.value.open(cell.s);
    return if plain.None? then None else Some(Text(plain.value));
  }

  /** Decrypts the encrypted columns of a fetched row in place; none if one cannot be. */
  method DecryptCrudRow(ctx: Context, crud: Crud, row: Row) returns (r: Option<Row>)
    requires Accepted(crud)
    ensures r == if Opens(ctx, crud.fields, row) then Some(OpenedRow(ctx, crud.fields, row)) else None
  {
    var m := row;
    assert m == OpenedRow(ctx, [], row);
    for i := 0 to |crud.fields|
      invariant m == OpenedRow(ctx, crud.fields[..i], row)
      invariant Opens(ctx, crud.fields[..i], row)
    {
      var f := crud.fields[i];
      assert crud.fields[..i + 1] == crud.fields[..i] + [f];
      OpenedRowNext(ctx, crud.fields[..i], f, row);
      if !f.encrypted || f.name !in m {
        continue;
      }
      var plain := DecryptCell(ctx, f, m[f.name]);
      if plain.None? {
        return None;
      }
      m := m[f.name := plain.value];
    }
    assert crud.fields[..|crud.fields|] == crud.fields;
    return Some(m);
  }

  // ---- the table without encryption -----------------------------------------------------------

  /** The same context with a cipher that leaves everything as it is. */
  function Plain(ctx: Context): Context {
    ctx.(pii := Some(Cipher((n: nat, p: string) => p, (t: string) => Some(t))))
  }

  /** Sealing what is submitted and opening what is stored give the submitted value; the
      same requests are refused with the same answer. */
  lemma WorkOpens(ctx: Context, mode: Mode, body: Body, f: Field, nonce: string -> nat)
    requires ctx.pii.Some? && Lawful(ctx.pii.value)
    ensures var w, p := WorkOf(ctx, mode, body, f, nonce), WorkOf(Plain(ctx), mode, body, f, nonce);
            && (w.Put? <==> p.Put?) && (!w.Put? ==> w == p)
            && (w.Put? ==> OpenCell(ctx, f, w.cell) == Some(p.cell))
  {
  }

  lemma {:induction false} RefusalIsPlain(ctx: Context, mode: Mode, body: Body, fields: seq<Field>,
                                          nonce: string -> nat)
    requires ctx.pii.Some? && Lawful(ctx.pii.value)
    ensures Refusal(ctx, mode, body, fields, nonce) == Refusal(Plain(ctx), mode, body, fields, nonce)
  {
    if fields != [] {
      WorkOpens(ctx, mode, body, fields[0], nonce);
      RefusalIsPlain(ctx, mode, body, fields[1..], nonce);
    }
  }

  lemma CellOpens(ctx: Context, mode: Mode, body: Body, fields: seq<Field>, c: string, nonce: string -> nat)
    requires ctx.pii.Some? && Lawful(ctx.pii.value)
    ensures var w, p := CellFor(ctx, mode, body, fields, c, nonce), CellFor(Plain(ctx), mode, body, fields, c, nonce);
            && (w.Some? <==> p.Some?)
            && (w.Some? ==> Opened(ctx, fields, c, w.value) == p.value)
  {
    var f := FieldNamed(fields, c);
    if f.Some? { WorkOpens(ctx, mode, body, f.value, nonce); }
  }

  /** A created row opens to the row with the submitted values. */
  lemma CreatedRowOpens(ctx: Context, crud: Crud, columns: set<string>, body: Body, nonce: string -> nat,
                        user: string, env: Env)
    requires Accepted(crud) && ctx.pii.Some? && Lawful(ctx.pii.value)
    ensures OpenedRow(ctx, crud.fields, CreatedRow(ctx, crud, columns, body, nonce, user, env))
         == CreatedRow(Plain(ctx), crud, columns, body, nonce, user, env)
  {
    var row := CreatedRow(ctx, crud, columns, body, nonce, user, env);
    var plain := CreatedRow(Plain(ctx), crud, columns, body, nonce, user, env);
    forall c | c in columns ensures Opened(ctx, crud.fields, c, row[c]) == plain[c] {
      CellOpens(ctx, Creating, body, crud.fields, c, nonce);
    }
  }

  /** What a client reads back from a created row: each submitted value, null for the
      fields left out, and itself as the owner. */
  lemma SubmittedReadsBack(ctx: Context, crud: Crud, columns: set<string>, body: Body, nonce: string -> nat,
                           user: string, env: Env, i: nat)
    requires Accepted(crud) && Columns(crud) <= columns && ctx.pii.Some? && Lawful(ctx.pii.value) && i < |crud.fields|
    requires Refusal(ctx, Creating, body, crud.fields, nonce).None?
    ensures var row := CreatedRow(ctx, crud, columns, body, nonce, user, env);
            var f, back := crud.fields[i], OpenedRow(ctx, crud.fields, row);
            && Opens(ctx, [f], row)
            && (if f.name !in body || body[f.name] == NULL then back[f.name] == Null
                else Some(back[f.name]) == ctx.read(f.kind, body[f.name]))
            && back[ID] == Text(env.newId) && (crud.ownerScoped ==> back[CREATED_BY] == Text(user))
  {
    FieldNamedIs(crud.fields, i);
    WorkOpens(ctx, Creating, body, crud.fields[i], nonce);
    CellOpens(ctx, Creating, body, crud.fields, crud.fields[i].name, nonce);
  }

  /** Patching and then opening is opening and then patching with the submitted values. */
  lemma PatchedRowOpens(ctx: Context, crud: Crud, row: Row, body: Body, nonce: string -> nat, env: Env)
    requires Accepted(crud) && ctx.pii.Some? && Lawful(ctx.pii.value)
    ensures OpenedRow(ctx, crud.fields, PatchedRow(ctx, crud, row, body, nonce, env))
         == PatchedRow(Plain(ctx), crud, OpenedRow(ctx, crud.fields, row), body, nonce, env)
  {
    var patched, open := PatchedRow(ctx, crud, row, body, nonce, env), OpenedRow(ctx, crud.fields, row);
    forall c | c in row
      ensures Opened(ctx, crud.fields, c, patched[c]) == PatchedRow(Plain(ctx), crud, open, body, nonce, env)[c]
    {
      CellOpens(ctx, Patching, body, crud.fields, c, nonce);
    }
  }

  // ---- what is stored ---------------------------------------------------------------------------

  /** A ciphertext of some text under the key. */
  ghost predicate Ciphertext(ctx: Context, cell: Cell) {
    ctx.pii.Some? && exists n: nat, p: string :: cell == Text(ctx.pii.value.seal(n, p))
  }

  /** Required columns are set and encrypted ones hold ciphertexts. */
  ghost predicate FieldHolds(ctx: Context, f: Field, cell: Cell) {
    && (f.required ==> cell != Null)
    && (f.encrypted && cell != Null ==> Ciphertext(ctx, cell))
  }

  ghost predicate RowHolds(ctx: Context, crud: Crud, row: Row) {
    forall i | 0 <= i < |crud.fields| && crud.fields[i].name in row ::
      FieldHolds(ctx, crud.fields[i], row[crud.fields[i].name])
  }

  lemma WorkHolds(ctx: Context, mode: Mode, body: Body, f: Field, nonce: string -> nat)
    requires Reads(ctx) && !WorkOf(ctx, mode, body, f, nonce).Refuse?
    ensures var w := WorkOf(ctx, mode, body, f, nonce);
            && (w.Put? ==> FieldHolds(ctx, f, w.cell))
            && (w.Skip? && mode.Creating? ==> !f.required)
  {
    var w := WorkOf(ctx, mode, body, f, nonce);
    if w.Put? && w.cell != Null && f.encrypted {
      var raw := body[f.name];
      assert w.cell == Text(ctx.pii.value.seal(nonce(f.name), ctx.read(f.kind, raw).value.s));
    }
  }

  lemma CreatedRowHolds(ctx: Context, crud: Crud, columns: set<string>, body: Body, nonce: string -> nat,
                        user: string, env: Env)
    requires Accepted(crud) && Reads(ctx) && Refusal(ctx, Creating, body, crud.fields, nonce).None?
    ensures RowHolds(ctx, crud, CreatedRow(ctx, crud, columns, body, nonce, user, env))
  {
    var row := CreatedRow(ctx, crud, columns, body, nonce, user, env);
    forall i | 0 <= i < |crud.fields| && crud.fields[i].name in row
      ensures FieldHolds(ctx, crud.fields[i], row[crud.fields[i].name])
    {
      FieldNamedIs(crud.fields, i);
      WorkHolds(ctx, Creating, body, crud.fields[i], nonce);
    }
  }

  lemma PatchedRowHolds(ctx: Context, crud: Crud, row: Row, body: Body, nonce: string -> nat, env: Env)
    requires Accepted(crud) && Reads(ctx) && Refusal(ctx, Patching, body, crud.fields, nonce).None?
    requires RowHolds(ctx, crud, row)
    ensures RowHolds(ctx, crud, PatchedRow(ctx, crud, row, body, nonce, env))
  {
    var patched := PatchedRow(ctx, crud, row, body, nonce, env);
    forall i | 0 <= i < |crud.fields| && crud.fields[i].name in patched
      ensures FieldHolds(ctx, crud.fields[i], patched[crud.fields[i].name])
    {
      FieldNamedIs(crud.fields, i);
      WorkHolds(ctx, Patching, body, crud.fields[i], nonce);
    }
  }

  /** Rows in this condition never fail to open. */
  lemma HeldRowOpens(ctx: Context, crud: Crud, row: Row)
    requires RowHolds(ctx, crud, row) && (ctx.pii.Some? ==> Lawful(ctx.pii.value))
    ensures Opens(ctx, crud.fields, row)
  {
  }
}
