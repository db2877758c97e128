/** The rows of one branch database and the row-level write primitives. */
module BranchData {
  import opened Wrappers
  import opened JsonValues

  datatype EntityType = MemoryRecord | Session | ToolOutput

  const ALL_TYPES: seq<EntityType> := [MemoryRecord, Session, ToolOutput]

  datatype Key = Key(kind: EntityType, id: string)

  type Row = map<string, Json>

  const ID_COLUMN := "id"

  /** A column value read as a JSON field; a missing column reads as null. */
  function Cell(row: Row, field: string): Json {
    if field in row then row[field] else Null
  }

  /** SQLite cells hold no nested values. */
  predicate IsCell(v: Json) {
    !v.Arr? && !v.Obj?
  }

  /** Tables are given by their columns; a table the schema lacks is an empty table. */
  datatype Database = Database(schema: map<EntityType, set<string>>, rows: map<Key, Row>) {

    /** Every row fills exactly the columns of its table and carries its own identifier. */
    ghost predicate Wf() {
      && (forall t :: t in schema ==> ID_COLUMN in schema[t])
      && (forall k :: k in rows ==> k.kind in schema && RowOk(k, rows[k], schema[k.kind]))
    }

    /** INSERT OR REPLACE of the given columns: all others become null; an unknown column fails. */
    function Upsert(k: Key, obj: Row): Option<Database> {
      if k.kind in schema && obj.Keys <= schema[k.kind] then
        Some(this.(rows := rows[k := FullRow(schema[k.kind], k.id, obj)]))
      else None
    }

    /** DELETE by identifier; deleting an absent row changes nothing, a missing table fails. */
    function Delete(k: Key): Option<Database> {
      if k.kind in schema then Some(this.(rows := rows - {k})) else None
    }

    function RowAt(k: Key): Option<Row> {
      if k in rows then Some(rows[k]) else None
    }
  }

  ghost predicate RowOk(k: Key, row: Row, columns: set<string>) {
    && row.Keys == columns
    && ID_COLUMN in columns && row[ID_COLUMN] == Str(k.id)
    && forall f :: f in row ==> IsCell(row[f])
  }

  /** The row stored when only the columns of obj are written. */
  function FullRow(columns: set<string>, id: string, obj: Row): Row {
    map f | f in columns :: if f == ID_COLUMN then Str(id) else Cell(obj, f)
  }

  /** Row a with the fields of obj written over it. */
  function Overlay(a: Row, obj: Row): Row {
    a + obj
  }

  lemma FullRowOk(columns: set<string>, k: Key, obj: Row)
    requires ID_COLUMN in columns && forall f :: f in obj ==> IsCell(obj[f])
    ensures RowOk(k, FullRow(columns, k.id, obj), columns)
  {
  }
}
