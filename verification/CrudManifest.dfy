/** The crud block of a manifest: one table, its declared fields, and when the
    declaration is accepted. */
module CrudManifest {
  import opened Wrappers

  const ID := "id"
  const CREATED_AT := "created_at"
  const UPDATED_AT := "updated_at"
  const CREATED_BY := "created_by"

  const RESERVED: set<string> := {ID, CREATED_AT, UPDATED_AT, CREATED_BY}
  const KINDS: set<string> := {"string", "text", "integer", "float", "boolean", "date", "datetime", "uuid"}

  datatype Field = Field(name: string, kind: string, required: bool, encrypted: bool)

  datatype Crud = Crud(table: string, fields: seq<Field>, ownerScoped: bool)

  datatype Fault =
    | BadTable
    | BadName(name: string)
    | TakenName(name: string)
    | UnknownKind(name: string)
    | CannotEncrypt(name: string)

  /** Lower case, a letter first, then letters, digits and underscores. */
  predicate Identifier(s: string) {
    && s != "" && 'a' <= s[0] <= 'z'
    && forall c | c in s :: 'a' <= c <= 'z' || '0' <= c <= '9' || c == '_'
  }

  predicate IsText(kind: string) {
    kind == "string" || kind == "text"
  }

  predicate FieldAccepted(f: Field) {
    && Identifier(f.name) && f.name !in RESERVED
    && f.kind in KINDS && (f.encrypted ==> IsText(f.kind))
  }

  predicate DistinctNames(fields: seq<Field>) {
    forall i, j | 0 <= i < j < |fields| :: fields[i].name != fields[j].name
  }

  predicate Accepted(crud: Crud) {
    && Identifier(crud.table) && DistinctNames(crud.fields)
    && forall i | 0 <= i < |crud.fields| :: FieldAccepted(crud.fields[i])
  }

  function Names(fields: seq<Field>): set<string> {
    set i | 0 <= i < |fields| :: fields[i].name
  }

  /** The columns the accepted declaration says the table has. */
  function Columns(crud: Crud): set<string> {
    {ID, CREATED_AT, UPDATED_AT} + (if crud.ownerScoped then {CREATED_BY} else {}) + Names(crud.fields)
  }

  /** What is wrong with the first `n` fields, as the first fault met. */
  method ValidateCrudFields(crud: Crud) returns (fault: Option<Fault>)
    ensures fault.None? <==> Accepted(crud)
    ensures fault == Some(BadTable) <==> !Identifier(crud.table)
    ensures fault.Some? && !fault.value.BadTable? ==>
              exists i :: && 0 <= i < |crud.fields| && crud.fields[i].name == fault.value.name
                          && Accepted(crud.(fields := crud.fields[..i]))
                          && !Accepted(crud.(fields := crud.fields[..i + 1]))
  {
    if !Identifier(crud.table) {
      return Some(BadTable);
    }
    var seen := RESERVED;
    for i := 0 to |crud.fields|
      invariant Accepted(crud.(fields := crud.fields[..i]))
      invariant seen == RESERVED + Names(crud.fields[..i])
    {
      var f := crud.fields[i];
      assert crud.fields[..i + 1][i] == f;
      assert crud.fields[..i + 1] == crud.fields[..i] + [f];
      assert Names(crud.fields[..i + 1]) == Names(crud.fields[..i]) + {f.name};
      if !Identifier(f.name) {
        return Some(BadName(f.name));
      }
      if f.name in seen {
        assert !Accepted(crud.(fields := crud.fields[..i + 1]));
        return Some(TakenName(f.name));
      }
      seen := seen + {f.name};
      if f.kind !in KINDS {
        return Some(UnknownKind(f.name));
      }
      if f.encrypted && f.kind != "string" && f.kind != "text" {
        return Some(CannotEncrypt(f.name));
      }
    }
    assert crud.fields[..|crud.fields|] == crud.fields;
    return None;
  }
}
