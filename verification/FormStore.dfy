/**
 The form half of the database: the physical tables of schema `dbo`, the `TableManager` registry,
 and the meaning of the statements the form operations send.
 */
module FormStore {
  import opened Outcomes
  import opened Json

  /** A physical table: its column names in order and the name of its primary key constraint. */
  datatype Table = Table(columns: seq<string>, key: string)

  type Catalog = map<string, Table>

  /** A `TableManager` row. */
  datatype FormRow = FormRow(id: nat, name: string, display: string, mode: int)

  const TOMBSTONE := 3
  const DEFAULT_MODE := 0

  datatype FormDb = FormDb(catalog: Catalog, forms: seq<FormRow>, nextId: nat)

  /** The statements of the form operations; a call is given the set of those that fail. */
  datatype Stmt =
    | DropOld | CreateNew | SaveCreate
    | FindTable | ReadColumns | AlterColumns | SaveAlter
    | FindOld | FindNew | RenameTab | RenamePk | FindIdColumn | RenameIdColumn
    | InsertForm | SaveForm | ReadIdentity
    | FindForm | Probe(counter: nat) | ArchiveRow | FindPhysical | RenamePhysical | SaveDelete
    | SetMode | SaveMode

  /** A request's `formJson`: already parsed, or text with the result of parsing it. */
  datatype FormJson = Parsed(json: Json) | Text(parsed: Option<Json>)

  function JsonOf(form: FormJson): Option<Json> {
    match form
    case Parsed(j) => Some(j)
    case Text(p) => p
  }

  datatype FormData = FormData(identifier: Option<string>, display: Option<string>, json: FormJson)

  /** What an operation answers; `Abort` carries the HTTP status, `Raised` an error passed on. */
  datatype Reply =
    | Created(table: string)
    | Evolved(added: seq<string>)
    | Renamed(table: string, added: seq<string>)
    | Added(id: nat, table: string)
    | Deleted(found: bool)
    | ModeSet(found: bool)
    | Abort(status: nat)
    | Raised

  // ----- Statements ---------------------------------------------------------------------------

  /** Tables and constraints share the schema's object names. */
  predicate ObjectExists(c: Catalog, name: string) {
    name in c || exists t :: t in c && c[t].key == name
  }

  function CreateTable(c: Catalog, name: string, t: Table): Option<Catalog> {
    if ObjectExists(c, name) || ObjectExists(c, t.key) || name == t.key || !Distinct(t.columns) then None
    else Some(c[name := t])
  }

  function AddColumns(c: Catalog, name: string, columns: seq<string>): Option<Catalog> {
    if name in c && Distinct(c[name].columns + columns)
    then Some(c[name := c[name].(columns := c[name].columns + columns)])
    else None
  }

  /** sp_rename of a table: its columns and its constraint keep their names. */
  function RenameTable(c: Catalog, from: string, to: string): Option<Catalog> {
    if from in c && !ObjectExists(c, to) then Some((c - {from})[to := c[from]]) else None
  }

  /** sp_rename of a primary key constraint. */
  function RenameKey(c: Catalog, from: string, to: string): Option<Catalog> {
    if ObjectExists(c, to) || forall t :: t in c ==> c[t].key != from then None
    else Some(map t | t in c :: if c[t].key == from then c[t].(key := to) else c[t])
  }

  function Replace(columns: seq<string>, from: string, to: string): seq<string> {
    seq(|columns|, i requires 0 <= i < |columns| => if columns[i] == from then to else columns[i])
  }

  /** sp_rename of a column. */
  function RenameColumn(c: Catalog, table: string, from: string, to: string): Option<Catalog> {
    if table in c && from in c[table].columns && to !in c[table].columns
    then Some(c[table := c[table].(columns := Replace(c[table].columns, from, to))])
    else None
  }

  /** The catalog with other columns in one table. */
  function SetColumns(c: Catalog, name: string, columns: seq<string>): Catalog
    requires name in c
  {
    c[name := c[name].(columns := columns)]
  }

  /** A statement whose failure is caught and logged. */
  function Attempt<S>(before: S, result: Option<S>, fault: bool): S {
    if !fault && result.Some? then result.value else before
  }

  /** The database with another catalog, if the catalog statement went through. */
  function WithCatalog(db: FormDb, c: Option<Catalog>): Option<FormDb> {
    if c.Some? then Some(db.(catalog := c.value)) else None
  }
}
