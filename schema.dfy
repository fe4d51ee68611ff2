/**
 * DB.TableSchema: the output schema the database reports for a relation or a
 * query, which every validated algebra node caches, and its printed form.
 */
module Schema {
  import opened Wrappers
  import opened Text

  /**
   * A relation's name (null, i.e. None, for the schema of a bare query), its
   * column names and its column type names, both in column order.
   */
  datatype TableSchema = TableSchema(tableName: Option<string>, colNames: seq<string>, colTypes: seq<string>)

  /** One column of a result set's metadata: its label and its SQL type name. */
  datatype Column = Column(columnLabel: string, typeName: string)

  /** Java's string concatenation prints a null table name as "null". */
  function NameText(name: Option<string>): string {
    match name
    case None => "null"
    case Some(n) => n
  }

  /** The printed entry of column `i`: its name, a blank, its type. */
  function Entries(s: TableSchema): (es: seq<string>)
    requires |s.colNames| <= |s.colTypes|
  {
    seq(|s.colNames|, i requires 0 <= i < |s.colNames| => s.colNames[i] + " " + s.colTypes[i])
  }

  /** Reference form of toPrintString: name, then the entries in parentheses separated by ", ". */
  function Rendered(s: TableSchema): string
    requires |s.colNames| <= |s.colTypes|
  {
    NameText(s.tableName) + "(" + JoinWith(", ", Entries(s)) + ")"
  }

  /**
   * TableSchema.toPrintString. The loop runs over the column names and reads
   * the type at the same index, so the source needs at least as many types as
   * names (otherwise the list lookup throws).
   */
  method ToPrintString(s: TableSchema) returns (r: string)
    requires |s.colNames| <= |s.colTypes|
    ensures r == Rendered(s)
  {
    var es := Entries(s);
    r := NameText(s.tableName);
    r := r + "(";
    var i := 0;
    while i < |s.colNames|
      invariant 0 <= i <= |s.colNames|
      invariant r == NameText(s.tableName) + "(" + JoinWith(", ", es[..i])
    {
      JoinCommaStep(NameText(s.tableName) + "(", es, i, s.colNames[i], " ", s.colTypes[i]);
      if i > 0 {
        r := r + ", ";
      }
      r := r + s.colNames[i];
      r := r + " ";
      r := r + s.colTypes[i];
      i := i + 1;
    }
    assert es[..i] == es;
    r := r + ")";
  }

  /** A schema without columns prints as its name followed by "()". */
  lemma RenderedNoColumns(s: TableSchema)
    requires s.colNames == []
    ensures Rendered(s) == NameText(s.tableName) + "()"
  {
  }

  /**
   * The printed schema can be read back: between the name's "(" and the final
   * ")" each comma-separated piece is one column's "name type", in list order,
   * provided no name or type contains a comma.
   */
  lemma RenderedColumns(s: TableSchema)
    requires |s.colNames| == |s.colTypes| >= 1
    requires forall i :: 0 <= i < |s.colNames| ==> ',' !in s.colNames[i] && ',' !in s.colTypes[i]
    ensures var inner := JoinWith(", ", Entries(s));
      && Rendered(s) == NameText(s.tableName) + "(" + inner + ")"
      && |Split(inner, ',')| == |s.colNames|
      && forall i :: 0 <= i < |s.colNames| ==>
           Split(inner, ',')[i] == (if i == 0 then "" else " ") + s.colNames[i] + " " + s.colTypes[i]
  {
    var es := Entries(s);
    forall i | 0 <= i < |es|
      ensures ',' !in es[i]
    {
      assert es[i] == s.colNames[i] + " " + s.colTypes[i];
    }
    SplitCommaSpace(es);
  }

  /**
   * The column loop of DB.getOutputSchema: one name (the column label) and one
   * type name per result column, in column order.
   */
  method ReadColumns(cols: seq<Column>) returns (colNames: seq<string>, colTypes: seq<string>)
    ensures |colNames| == |cols| && |colTypes| == |cols|
    ensures forall i :: 0 <= i < |cols| ==> colNames[i] == cols[i].columnLabel && colTypes[i] == cols[i].typeName
  {
    colNames, colTypes := [], [];
    var i := 0;
    while i < |cols|
      invariant 0 <= i <= |cols|
      invariant |colNames| == i && |colTypes| == i
      invariant forall j :: 0 <= j < i ==> colNames[j] == cols[j].columnLabel && colTypes[j] == cols[j].typeName
    {
      colNames := colNames + [cols[i].columnLabel];
      colTypes := colTypes + [cols[i].typeName];
      i := i + 1;
    }
  }

  /** The schema a result set with columns `cols` describes, under the given table name. */
  function SchemaOf(name: Option<string>, cols: seq<Column>): (s: TableSchema)
    ensures |s.colNames| == |s.colTypes| == |cols|
  {
    TableSchema(name, Labels(cols), TypeNames(cols))
  }

  /** The column labels of a result set, in column order. */
  function Labels(cols: seq<Column>): (names: seq<string>)
    ensures |names| == |cols| && forall i :: 0 <= i < |cols| ==> names[i] == cols[i].columnLabel
    decreases |cols|
  {
    if cols == [] then [] else Labels(cols[..|cols| - 1]) + [cols[|cols| - 1].columnLabel]
  }

  /** The column type names of a result set, in column order. */
  function TypeNames(cols: seq<Column>): (types: seq<string>)
    ensures |types| == |cols| && forall i :: 0 <= i < |cols| ==> types[i] == cols[i].typeName
    decreases |cols|
  {
    if cols == [] then [] else TypeNames(cols[..|cols| - 1]) + [cols[|cols| - 1].typeName]
  }
}
