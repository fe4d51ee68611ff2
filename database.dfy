/**
 * The database session (class DB) as the algebra nodes use it: create a view,
 * drop a view, fetch the output schema of a query or a relation, run a query.
 * The engine behind it is abstract: an Engine value says, as a function of the
 * views that currently exist, whether a statement succeeds and which columns a
 * query yields. The session keeps the views that exist and the log of every
 * statement text it was sent.
 */
module Database {
  import opened Wrappers
  import opened Text
  import opened Schema

  /** The views that exist, each with the statement that created it. */
  type Views = map<string, string>

  /**
   * The engine's answers, given the views that exist: whether it accepts a
   * CREATE VIEW statement, which columns a query yields (None: the query
   * fails), whether it lets a view be dropped, and whether a query runs.
   */
  datatype Engine = Engine(
    accepts: (Views, string) -> bool,
    describe: (Views, string) -> Option<seq<Column>>,
    dropAllowed: (Views, string) -> bool,
    runs: (Views, string) -> bool)

  /** The session's state: the views that exist and every statement sent so far. */
  datatype DbState = DbState(views: Views, issued: seq<string>)

  /** The JDBC driver class whose dialect cannot name a view's columns in CREATE VIEW. */
  const SQLiteDriverName: string := "org.sqlite.JDBC"

  const CreateViewKeyword: string := "CREATE VIEW "

  /** The characters that end a view name in a CREATE VIEW statement. */
  const NameStops: set<char> := {' ', '('}

  /** The name of the view a CREATE VIEW statement creates, as the engine reads it. */
  function CreatedName(stmt: string): Option<string> {
    if StartsWith(stmt, CreateViewKeyword) then
      var name := Token(stmt[|CreateViewKeyword|..], NameStops).0;
      if name == "" then None else Some(name)
    else None
  }

  /** dropView(v): sends exactly "DROP VIEW v"; on success v no longer exists and nothing else changed. */
  function Drop(e: Engine, d: DbState, v: string): (r: (bool, DbState))
    ensures r.1.issued == d.issued + ["DROP VIEW " + v]
    ensures r.0 ==> v in d.views && r.1.views == d.views - {v}
    ensures !r.0 ==> r.1.views == d.views
  {
    var sent := d.(issued := d.issued + ["DROP VIEW " + v]);
    if v in d.views && e.dropAllowed(d.views, v) then (true, sent.(views := d.views - {v}))
    else (false, sent)
  }

  /**
   * createView(stmt): sends the statement; it succeeds when it names a view
   * that does not exist yet and the engine accepts it, and then that view,
   * and only it, is added.
   */
  function Create(e: Engine, d: DbState, stmt: string): (r: (bool, DbState))
    ensures r.1.issued == d.issued + [stmt]
    ensures r.0 <==> CreatedName(stmt).Some? && CreatedName(stmt).value !in d.views && e.accepts(d.views, stmt)
    ensures r.0 ==> r.1.views == d.views[CreatedName(stmt).value := stmt]
    ensures !r.0 ==> r.1.views == d.views
  {
    var sent := d.(issued := d.issued + [stmt]);
    var name := CreatedName(stmt);
    if name.Some? && name.value !in d.views && e.accepts(d.views, stmt)
    then (true, sent.(views := d.views[name.value := stmt]))
    else (false, sent)
  }

  /**
   * getOutputSchema(query): runs the query; on success one column name and one
   * type per result column, no table name, and no view created or dropped.
   */
  function OutputSchema(e: Engine, d: DbState, query: string): (r: (Option<TableSchema>, DbState))
    ensures r.1 == d.(issued := d.issued + [query])
    ensures r.0.Some? <==> e.describe(d.views, query).Some?
    ensures r.0.Some? ==> r.0.value == SchemaOf(None, e.describe(d.views, query).value)
  {
    var sent := d.(issued := d.issued + [query]);
    match e.describe(d.views, query)
    case None => (None, sent)
    case Some(cols) => (Some(SchemaOf(None, cols)), sent)
  }

  /** getTableSchema(t): the output schema of "SELECT * FROM t", named t. */
  function TableSchemaOf(e: Engine, d: DbState, t: string): (r: (Option<TableSchema>, DbState))
    ensures var q := OutputSchema(e, d, "SELECT * FROM " + t);
      && r.1 == q.1
      && r.0.Some? == q.0.Some?
      && (r.0.Some? ==> r.0.value == q.0.value.(tableName := Some(t)))
  {
    var (s, d1) := OutputSchema(e, d, "SELECT * FROM " + t);
    match s
    case None => (None, d1)
    case Some(schema) => (Some(TableSchema(Some(t), schema.colNames, schema.colTypes)), d1)
  }

  /** execQueryAndOutputResult(query): sends the query; whether it runs is the engine's answer. */
  function Query(e: Engine, d: DbState, query: string): (r: (bool, DbState))
    ensures r.1 == d.(issued := d.issued + [query])
  {
    (e.runs(d.views, query), d.(issued := d.issued + [query]))
  }

  /** The database session. */
  class DB {
    const driverName: string
    const engine: Engine
    var views: Views
    var issued: seq<string>

    ghost function State(): DbState
      reads this
    {
      DbState(views, issued)
    }

    /** getDriverName().equals("org.sqlite.JDBC"): the dialect test of RENAME. */
    predicate IsSQLite() {
      driverName == SQLiteDriverName
    }

    /** A session over a database holding `views`, before any statement is sent. */
    constructor (driverName: string, engine: Engine, views: Views)
      ensures this.driverName == driverName && this.engine == engine
      ensures this.views == views && issued == []
    {
      this.driverName := driverName;
      this.engine := engine;
      this.views := views;
      issued := [];
    }

    method DropView(v: string) returns (ok: bool)
      modifies this
      ensures (ok, State()) == Drop(engine, old(State()), v)
    {
      ok := v in views && engine.dropAllowed(views, v);
      issued := issued + ["DROP VIEW " + v];
      if ok {
        views := views - {v};
      }
    }

    method CreateView(stmt: string) returns (ok: bool)
      modifies this
      ensures (ok, State()) == Create(engine, old(State()), stmt)
    {
      var name := CreatedName(stmt);
      ok := name.Some? && name.value !in views && engine.accepts(views, stmt);
      issued := issued + [stmt];
      if ok {
        views := views[name.value := stmt];
      }
    }

    method GetOutputSchema(query: string) returns (s: Option<TableSchema>)
      modifies this
      ensures (s, State()) == OutputSchema(engine, old(State()), query)
    {
      var result := engine.describe(views, query);
      issued := issued + [query];
      if result.None? {
        return None;
      }
      var colNames, colTypes := ReadColumns(result.value);
      assert colNames == SchemaOf(None, result.value).colNames;
      assert colTypes == SchemaOf(None, result.value).colTypes;
      s := Some(TableSchema(None, colNames, colTypes));
    }

    method GetTableSchema(tableName: string) returns (s: Option<TableSchema>)
      modifies this
      ensures (s, State()) == TableSchemaOf(engine, old(State()), tableName)
    {
      var schema := GetOutputSchema("SELECT * FROM " + tableName);
      if schema.None? {
        return None;
      }
      s := Some(TableSchema(Some(tableName), schema.value.colNames, schema.value.colTypes));
    }

    method ExecQueryAndOutputResult(query: string) returns (ok: bool)
      modifies this
      ensures (ok, State()) == Query(engine, old(State()), query)
    {
      ok := engine.runs(views, query);
      issued := issued + [query];
    }
  }
}
