# RA: relational algebra evaluated through temporary SQL views

RA is an interpreter for relational algebra. It evaluates an expression by turning every operator node into a temporary SQL view. It queries the root view and then drops the views again. This project models that core and proves properties of it.

- **Nodes.** There are nine variants: TABLE, SELECT, PROJECT, JOIN, CROSS, UNION, DIFF, INTERSECT and RENAME. Each node carries:
  - its view name `RA_TMP_VIEW_k`;
  - a status (ERROR, UNCHECKED or CORRECT);
  - a cached output schema;
  - its children.
- **Per-variant text.** Each variant produces its printed operator, its view definition and its `CREATE VIEW` statement. RENAME's form depends on the SQL dialect. On SQLite it reads the child's schema and lists `old AS new` for each column. On other dialects it names the columns in the statement.
- **The lifecycle.**
  - `validate` works children first, stopping at the first failure. It then drops a stale view (best effort), creates the node's view and fetches its schema.
  - `execute` queries the root's view.
  - `clean` drops the views of CORRECT nodes, node before children.
- **The database session.** The engine behind it is abstract: a value of type `Engine` says whether a statement succeeds, as a function of the views that exist. The session records the views that exist and every statement text it was sent. `DB.TableSchema` and its printed form are modelled for every schema with at least as many types as names, which is every schema the program builds.
- **The expression branch of `evaluate`.** It resets the view counter and builds the tree. It then validates, executes only if validation returned normally, and always cleans.

Modules:
- `Text`, `ViewNames` and `Schema`: string helpers, the view-name generator and the schema record.
- `Database`: the session, with a pure function for each operation and a `DB` class whose methods are proved to compute those functions.
- `RAXText`: the text of every variant, with parsers that read the text back to prove it means what it should.
- `Lifecycle`: validate and clean as functions on a tree datatype, together with the lemmas about them.
- `Nodes`: the `RAXNode` class, whose methods change the status and schema in place and are proved to compute the `Lifecycle` functions on the tree the nodes represent, and `Build`, which constructs the node tree.
- `Construction`: the shape and numbering of a freshly built tree.
- `RA`: `evaluate`.

Some behaviour of the code is easy to misread, and the model follows the code in each case:
- **An ERROR node can leave its view behind.** `validate` marks a node ERROR when creating its view fails. It also does so when the view was created but fetching its schema then failed. `clean` never drops the view of an ERROR node, so in that second case the view outlives the evaluation (`Lifecycle.ValidateSelfLeavesView`, `RA.EvaluationKeepsErrorRootView`).
- **A RENAME column-count mismatch leaves the node UNCHECKED.** The exception is raised outside the `catch (SQLException)`, so the node is not marked ERROR. No view is created.
- **A failed drop ends the whole clean.** When `clean` cannot drop a CORRECT node's view, the exception propagates. That node stays CORRECT and its children, and every later sibling, are not cleaned.
- **DIFF and INTERSECT use the native keywords.** They always emit `EXCEPT` and `INTERSECT`; there is no emulation for engines without them. JOIN always emits `WHERE condition`.

## Model

| member | source | states |
|---|---|---|
| ViewNames.ViewNameGenerator.constructor | src/ra/RAXNode.java:11 | the counter starts at 0 |
| ViewNames.ViewNameGenerator.Reset | src/ra/RAXNode.java:16-18 | after a reset the counter is 0, so the next name is RA_TMP_VIEW_1 |
| ViewNames.ViewNameGenerator.Generate | src/ra/RAXNode.java:12-15 | the counter goes up by one and the name is RA_TMP_VIEW_ followed by the new count |
| ViewNames.ViewNumberOfViewName | src/ra/RAXNode.java:12-15 | a generated name can be read back as the count it was made from |
| ViewNames.ViewNameInjective | src/ra/RAXNode.java:12-15 | two counts give the same name if and only if they are equal |
| ViewNames.ViewNameIsWord | src/ra/RAXNode.java:14 | a generated name is an SQL identifier, longer than the prefix |
| Text.DigitsValueOfNatToString | src/ra/RAXNode.java:14 | reading back the decimal rendering of the count gives the count |
| Text.JoinSplit | src/ra/RAXNode.java:309 | cutting a string at a character loses nothing: joining the pieces with that character gives it back |
| Text.SplitJoin | src/ra/RAXNode.java:309 | cutting comma-free parts joined by commas at the commas gives the parts back |
| Schema.ToPrintString | src/ra/DB.java:30-41 | the loop builds the name, then `(`, then the `name type` entries in list order separated by `, `, then `)` |
| Schema.RenderedNoColumns | src/ra/DB.java:30-41 | a schema without columns prints as its name followed by `()` |
| Schema.RenderedColumns | src/ra/DB.java:30-41 | cut at its commas, the printed list yields, for each column in order, exactly its name, a blank and its type |
| Schema.ReadColumns | src/ra/DB.java:259-267 | one name (the column label) and one type per result column, in column order, in lists of equal length |
| Schema.SchemaOf | src/ra/DB.java:255-269 | a result set's schema has as many names and types as the set has columns |
| Schema.Labels | src/ra/DB.java:261-267 | the i-th name is the i-th column's label |
| Schema.TypeNames | src/ra/DB.java:261-267 | the i-th type is the i-th column's type name |
| Database.Drop | src/ra/DB.java:307-313 | sends exactly `DROP VIEW v`; on success v existed and only v is gone; on failure no view changed |
| Database.Create | src/ra/DB.java:299-305 | sends the statement; it succeeds if and only if it names a view that does not exist yet and the engine accepts it; then only that view is added |
| Database.OutputSchema | src/ra/DB.java:253-270 | sends the query and changes no view; there is a schema if and only if the engine describes the query, and then it has no table name and one entry per column |
| Database.TableSchemaOf | src/ra/DB.java:272-276 | the output schema of `SELECT * FROM t`, with the table name set to t |
| Database.Query | src/ra/DB.java:230-238 | sends the query and changes no view |
| Database.DB.constructor | src/ra/DB.java:83-88 | a session over the given views, before any statement is sent |
| Database.DB.DropView | src/ra/DB.java:307-313 | the session's views and log change exactly as Drop says |
| Database.DB.CreateView | src/ra/DB.java:299-305 | the session's views and log change exactly as Create says |
| Database.DB.GetOutputSchema | src/ra/DB.java:253-270 | result and log as OutputSchema says |
| Database.DB.GetTableSchema | src/ra/DB.java:272-276 | result and log as TableSchemaOf says |
| Database.DB.ExecQueryAndOutputResult | src/ra/DB.java:230-238 | result and log as Query says |
| RAXText.OpOfPrintOfToPrintString | src/ra/RAXNode.java:140-306 | the printed operator identifies the variant and its parameter (a table name must not start with a backslash) |
| RAXText.PrintSelect | src/ra/RAXNode.java:166-168 | `\select_{c}` reads back as SELECT with condition c |
| RAXText.PrintProject | src/ra/RAXNode.java:181-183 | `\project_{c}` reads back as PROJECT with columns c |
| RAXText.PrintJoin | src/ra/RAXNode.java:198-200 | `\join_{c}` reads back as JOIN with condition c |
| RAXText.PrintRename | src/ra/RAXNode.java:303-305 | `\rename_{c}` reads back as RENAME with columns c |
| RAXText.ParseViewDefOfViewDef | src/ra/RAXNode.java:146-256 | every variant's view definition reads back as the query it means, over the children's views in child order |
| RAXText.ParseDistinct | src/ra/RAXNode.java:146-149 | `SELECT DISTINCT list FROM r` reads back as the distinct projection of list from r |
| RAXText.ParseSelectDef | src/ra/RAXNode.java:161-165 | SELECT's definition reads back as a selection from its child under its condition |
| RAXText.ParseJoinDef | src/ra/RAXNode.java:192-197 | JOIN's definition reads back as both children under its condition |
| RAXText.ParseCrossDef | src/ra/RAXNode.java:207-211 | CROSS's definition reads back as both children without a condition |
| RAXText.ParseSetOpDef | src/ra/RAXNode.java:217-256 | the definitions of UNION, DIFF and INTERSECT read back as UNION, EXCEPT and INTERSECT of the left and right child |
| RAXText.ParseRenameDef | src/ra/RAXNode.java:289-291 | RENAME's non-SQLite definition reads back as all of its child |
| RAXText.CreatedNameOfCreateStatement | src/ra/RAXNode.java:43-46 | the database reads the node's own view name out of every create statement the node issues, in both RENAME forms |
| RAXText.ParseCreateStatementOf | src/ra/RAXNode.java:43-46 | every create statement reads back as the node's view name, RENAME's column list exactly where the dialect is not SQLite, and the definition |
| RAXText.ParseColumnNames | src/ra/RAXNode.java:308-311 | no new column name contains a comma |
| RAXText.DropTrailingEmpty | src/ra/RAXNode.java:309 | the result is the longest prefix that does not end in an empty name; everything dropped was empty |
| RAXText.ParseColumnNamesOfJoin | src/ra/RAXNode.java:308-311 | a list of column names written with `, ` parses back to exactly those names, in order |
| RAXText.RenameSelect | src/ra/RAXNode.java:281-288 | the loop builds `SELECT`, the items `old_i AS new_i` separated by `, `, then `FROM child` |
| RAXText.RenameDefPositional | src/ra/RAXNode.java:281-288 | cut at its commas, item i of the SELECT list is the child's i-th column, `AS`, and the i-th new name |
| Construction.BuiltWellFormed | src/ra/RAXNode.java:26-31 | every node of a built tree has as many children as its variant's constructor takes |
| Construction.BuiltUnchecked | src/ra/RAXNode.java:26-31 | every node of a freshly built tree is UNCHECKED |
| Construction.BuiltNames | src/ra/RAXNode.java:26-31 | the root carries the highest number, all numbers lie after the starting count, and no two nodes share a view |
| Construction.BuiltNamesNumbered | src/ra/RAXNode.java:11-18 | the views of a tree built from count s are exactly those numbered s+1 to s+size |
| Construction.BuiltParentAbove | src/ra/RAXNode.java:26-31 | every parent's number exceeds those of all nodes below it, because children are built first |
| Lifecycle.GenViewCreateKeepsViews | src/ra/RAXNode.java:265-302 | generating a create statement (including RENAME's schema fetch on SQLite) creates and drops no view |
| Lifecycle.CreateAndDescribe | src/ra/RAXNode.java:83-93 | keeps operator, number and children; Ok if and only if the create succeeds and the new view's schema is then fetched, and the node caches that schema and is CORRECT; otherwise an SQL error naming the node marks it ERROR; no other view changes |
| Lifecycle.ValidateSelf | src/ra/RAXNode.java:71-94 | the node's own step keeps operator, number and children, changes no view but its own, and on Ok the node is CORRECT with a schema and its view exists |
| Lifecycle.ValidateSelfOk | src/ra/RAXNode.java:71-94 | after the best-effort drop, the own step returns normally if and only if the statement is generated, the create succeeds and the new view's schema is fetched; the node caches that schema |
| Lifecycle.ValidateSelfRaised | src/ra/RAXNode.java:71-94 | a failing own step names this node. An SQL error marks it ERROR. The message is raised only for a SQLite RENAME whose child has a schema with a different number of columns from the new names; the node is left as it was and no view is created |
| Lifecycle.ValidateSelfMismatch | src/ra/RAXNode.java:274-280 | conversely, on SQLite every RENAME whose child's schema has a different number of columns from the new names raises the message and leaves the node as it was |
| Lifecycle.ValidateSelfLeavesView | src/ra/RAXNode.java:83-91 | when the create succeeds and the schema fetch fails, the node is ERROR and its view stays |
| Lifecycle.Validate | src/ra/RAXNode.java:64-95 | keeps the tree's shape; Ok means every node is CORRECT with a schema; no view outside the tree's own changes |
| Lifecycle.ValidateKids | src/ra/RAXNode.java:68-70 | the children keep their shapes; Ok means every child subtree is CORRECT; no other view changes |
| Lifecycle.ValidateOkViewsExist | src/ra/RAXNode.java:64-95 | after a validate that returns normally, every node's view exists, given unique names |
| Lifecycle.ValidateRaised | src/ra/RAXNode.java:64-95 | a raising validate names a node of the tree. Either a child i raised (the node is untouched, later children were never validated, earlier ones are CORRECT), or all children are CORRECT and the node itself failed |
| Lifecycle.ValidateKidsRaised | src/ra/RAXNode.java:68-70 | the children's loop stops at the first raising child i; children after i are unchanged and those before it are CORRECT |
| Lifecycle.ValidateRaisedNames | src/ra/RAXNode.java:87-91 | the node a ValidateException carries belongs to the validated tree |
| Lifecycle.CleanShape | src/ra/RAXNode.java:102-118 | clean keeps the shape; one that succeeds leaves every node UNCHECKED |
| Lifecycle.CleanKidsShape | src/ra/RAXNode.java:114-116 | the children's clean keeps their shapes; success leaves all of them UNCHECKED |
| Lifecycle.CleanIssued | src/ra/RAXNode.java:102-118 | clean sends nothing but a prefix of the DROP VIEW statements of the CORRECT nodes (node before children, left to right), and all of them when it succeeds |
| Lifecycle.CleanKidsIssued | src/ra/RAXNode.java:114-116 | the same for the children's loop |
| Lifecycle.CleanViews | src/ra/RAXNode.java:102-118 | a clean that succeeds removes exactly the views of the CORRECT nodes |
| Lifecycle.CleanKidsViews | src/ra/RAXNode.java:114-116 | the same for the children's loop |
| Lifecycle.CleanConfined | src/ra/RAXNode.java:102-118 | succeeding or not, clean touches no view except those of CORRECT nodes |
| Lifecycle.CleanUnchecked | src/ra/RAXNode.java:102-118 | clean of an all-UNCHECKED tree changes nothing and sends nothing |
| Lifecycle.CleanIdempotent | src/ra/RAXNode.java:102-118 | after a clean that succeeds, a second clean sends no drop and changes nothing |
| Lifecycle.CleanKeepsErrorView | src/ra/RAXNode.java:109-113 | the view of an ERROR node that exists survives clean |
| Nodes.RAXNode.constructor | src/ra/RAXNode.java:26-31 | a new node draws the next name, is UNCHECKED without a schema, and forms a valid tree over its children |
| Nodes.RAXNode.GenViewDef | src/ra/RAXNode.java:265-292 | the definition and database effects are Lifecycle.GenViewDef's, whose SQLite branch fetches the child's schema and builds the positional rename list |
| Nodes.RAXNode.GenViewCreateStatement | src/ra/RAXNode.java:293-302 | the statement and database effects are Lifecycle.GenViewCreate's |
| Nodes.RAXNode.ValidateSelf | src/ra/RAXNode.java:71-94 | outcome, status, schema and database state are Lifecycle.ValidateSelf's |
| Nodes.RAXNode.ValidateNode | src/ra/RAXNode.java:71-94 | the node's own step, stated on the whole tree the node represents |
| Nodes.RAXNode.CreateAndDescribe | src/ra/RAXNode.java:83-93 | outcome, status, schema and database state are Lifecycle.CreateAndDescribe's |
| Nodes.RAXNode.Validate | src/ra/RAXNode.java:64-95 | the outcome, the new tree of nodes and the database state are Lifecycle.Validate's on the tree the nodes represented |
| Nodes.RAXNode.ValidateChildren | src/ra/RAXNode.java:68-70 | the children's loop computes Lifecycle.ValidateKids |
| Nodes.RAXNode.ValidateNext | src/ra/RAXNode.java:68-70 | one iteration: stops with the children's full result on a raise, or advances the loop invariant |
| Nodes.RAXNode.ValidateChild | src/ra/RAXNode.java:69 | validating child i changes only child i's tree, as Lifecycle.Validate says |
| Nodes.RAXNode.Execute | src/ra/RAXNode.java:96-101 | on a CORRECT node, sends exactly `SELECT * FROM` the node's view and leaves the tree unchanged |
| Nodes.RAXNode.Clean | src/ra/RAXNode.java:102-118 | result, new tree and database state are Lifecycle.Clean's |
| Nodes.RAXNode.CleanNode | src/ra/RAXNode.java:104-113 | a CORRECT node drops its view (failure stops with the node still CORRECT); ERROR and UNCHECKED nodes change no view and become UNCHECKED |
| Nodes.RAXNode.CleanChildren | src/ra/RAXNode.java:114-116 | the children's loop computes Lifecycle.CleanKids |
| Nodes.RAXNode.CleanNext | src/ra/RAXNode.java:114-116 | one iteration: stops with the children's full result on a failure, or advances the loop invariant |
| Nodes.RAXNode.CleanChild | src/ra/RAXNode.java:115 | cleaning child i changes only child i's tree, as Lifecycle.Clean says |
| Nodes.Build | src/ra/RAXNode.java:26-31 | builds a valid fresh node tree representing the expression, numbered children first; the counter advances by the tree's size |
| Nodes.BuildArgs | src/ra/RAXNode.java:26-31 | the argument nodes, built left to right, form disjoint fresh trees numbered one after another |
| RA.Fresh | src/ra/RA.java:294-296 | the tree built after the reset is well formed and all UNCHECKED, its names are unique and its views are exactly RA_TMP_VIEW_1 to RA_TMP_VIEW_n |
| RA.Evaluate | src/ra/RA.java:291-339 | a malformed expression touches nothing. Otherwise the report and the database state are those of validate, then execute only after a normal validate, then clean in every case, on the tree built after the reset |
| RA.RunNode | src/ra/RA.java:302-338 | validate, execute only if validate returned normally, and clean always, as the Run function sequences them |
| RA.EvaluationConfined | src/ra/RA.java:331-338 | whatever happens, an evaluation changes no view other than RA_TMP_VIEW_1 to RA_TMP_VIEW_n of its n nodes |
| RA.EvaluationCleansUp | src/ra/RA.java:331-338 | when validation returns normally and clean succeeds, every view the evaluation made is gone and no other view changed |
| RA.EvaluationQueriesRoot | src/ra/RA.java:302-308 | after a normal validate the query names the root's view, which is RA_TMP_VIEW_n and exists |
| RA.EvaluationKeepsErrorRootView | src/ra/RA.java:314-333 | an ERROR root whose view was created still has it after the evaluation |

## Left out

- Output: `RAXNode.print`, the verbose and error printing of `evaluate`, `printResultSet` and `printSQLExceptionDetails` write to streams and are not modelled. Execute's query reports only whether it ran.
- Nodes.RAXNode.Execute: the result rows are not modelled, because the engine is abstract; only the query text and whether it ran are.
- JDBC plumbing is not modelled: driver loading, the connection, `close`, `execCommands` and `getTables`.
- The SQL engine is abstract. Whether a statement succeeds and which columns a query yields are the `Engine`'s answers, as functions of the views that exist. Base tables and their contents are not part of the state.
- The other commands of `evaluate` are not modelled: quit, help, list, and SQL passed through. They build no algebra tree.
- RAXConstructor is not part of this model. A parsed expression is the `Expr` datatype. Its construction error (RecognitionException) is the case of an expression whose operators have the wrong number of operands.
- The view counter is a 32-bit `int` in the source. The model uses an unbounded counter, since wrap-around would need 2^31 nodes in one expression.
- Exceptions are results: a ValidateException is `Outcome.Raised`, naming the failing node by its view. The SQLException it wraps is reduced to the cause `SqlError`; an SQL error in execute or clean is a `false` result.
- Schema.ToPrintString: a schema with fewer types than names is outside its precondition. In the source, `get(i)` on the types list would throw IndexOutOfBoundsException; no schema the program builds has that shape, since `getOutputSchema` adds one name and one type per column.
- Java `assert` statements are not modelled, except that `execute`'s assertion of CORRECT is Execute's precondition.
- Getters of TableSchema and RAXNode are the fields of the datatype and the class.
- `String.split("\\s*,\\s*")` is modelled by its effect: cut at each comma, remove the whitespace next to each comma, drop trailing empty strings. No general regular expressions are modelled.
