/**
 * The text RAXNode produces for each of its nine variants: the printed
 * operator, the view-defining query and the CREATE VIEW statement, plus the
 * column-list parser that the SQLite form of RENAME relies on. All of it is
 * string concatenation over the node's parameters and its children's view
 * names.
 */
module RAXText {
  import opened Wrappers
  import opened Text
  import opened ViewNames
  import Database

  /** The nine node variants, each with its literal parameter. */
  datatype Op =
    | Table(tableName: string)
    | Select(condition: string)
    | Project(columns: string)
    | Join(condition: string)
    | Cross
    | Union
    | Diff
    | Intersect
    | Rename(columns: string)

  /** The number of children each variant's constructor takes. */
  function Arity(op: Op): nat {
    match op
    case Table(_) => 0
    case Select(_) | Project(_) | Rename(_) => 1
    case _ => 2
  }

  /** toPrintString of each variant. */
  function ToPrintString(op: Op): string {
    match op
    case Table(t) => t
    case Select(c) => "\\select_{" + c + "}"
    case Project(c) => "\\project_{" + c + "}"
    case Join(c) => "\\join_{" + c + "}"
    case Cross => "\\cross"
    case Union => "\\union"
    case Diff => "\\diff"
    case Intersect => "\\intersect"
    case Rename(c) => "\\rename_{" + c + "}"
  }

  /** `s` is `prefix`, something, then a closing brace. */
  predicate Braced(s: string, prefix: string) {
    StartsWith(s, prefix) && |s| > |prefix| && s[|s| - 1] == '}'
  }

  function Inner(s: string, prefix: string): string
    requires Braced(s, prefix)
  {
    s[|prefix|..|s| - 1]
  }

  /** Reads a printed operator back. */
  function OpOfPrint(s: string): Op {
    if s == [] || s[0] != '\\' then Table(s)
    else if s == "\\cross" then Cross
    else if s == "\\union" then Union
    else if s == "\\diff" then Diff
    else if s == "\\intersect" then Intersect
    else if Braced(s, "\\select_{") then Select(Inner(s, "\\select_{"))
    else if Braced(s, "\\project_{") then Project(Inner(s, "\\project_{"))
    else if Braced(s, "\\join_{") then Join(Inner(s, "\\join_{"))
    else if Braced(s, "\\rename_{") then Rename(Inner(s, "\\rename_{"))
    else Table(s)
  }

  lemma BracedOf(prefix: string, c: string, other: string)
    requires |prefix| >= 2 && |other| >= 2 && prefix[1] != other[1]
    ensures Braced(prefix + c + "}", prefix) && Inner(prefix + c + "}", prefix) == c
    ensures !StartsWith(prefix + c + "}", other)
    ensures (prefix + c + "}")[0] == prefix[0]
  {
    var s := prefix + c + "}";
    assert s[..|prefix|] == prefix;
    assert s[|prefix|..|s| - 1] == c;
    assert s[1] == prefix[1];
  }

  /**
   * The printed form identifies the operator and its parameter: reading it
   * back gives the operator, provided a table name does not itself start
   * with the backslash that every operator symbol starts with.
   */
  lemma OpOfPrintOfToPrintString(op: Op)
    requires op.Table? ==> op.tableName == [] || op.tableName[0] != '\\'
    ensures OpOfPrint(ToPrintString(op)) == op
  {
    match op
    case Select(c) => PrintSelect(c);
    case Project(c) => PrintProject(c);
    case Join(c) => PrintJoin(c);
    case Rename(c) => PrintRename(c);
    case _ =>
  }

  lemma PrintSelect(c: string)
    ensures OpOfPrint("\\select_{" + c + "}") == Select(c)
  {
    BracedOf("\\select_{", c, "\\cross");
    BracedOf("\\select_{", c, "\\union");
    BracedOf("\\select_{", c, "\\diff");
    BracedOf("\\select_{", c, "\\intersect");
  }

  lemma PrintProject(c: string)
    ensures OpOfPrint("\\project_{" + c + "}") == Project(c)
  {
    BracedOf("\\project_{", c, "\\select_{");
    BracedOf("\\project_{", c, "\\cross");
    BracedOf("\\project_{", c, "\\union");
    BracedOf("\\project_{", c, "\\diff");
    BracedOf("\\project_{", c, "\\intersect");
  }

  lemma PrintJoin(c: string)
    ensures OpOfPrint("\\join_{" + c + "}") == Join(c)
  {
    BracedOf("\\join_{", c, "\\select_{");
    BracedOf("\\join_{", c, "\\project_{");
    BracedOf("\\join_{", c, "\\cross");
    BracedOf("\\join_{", c, "\\union");
    BracedOf("\\join_{", c, "\\diff");
    BracedOf("\\join_{", c, "\\intersect");
  }

  lemma PrintRename(c: string)
    ensures OpOfPrint("\\rename_{" + c + "}") == Rename(c)
  {
    BracedOf("\\rename_{", c, "\\select_{");
    BracedOf("\\rename_{", c, "\\project_{");
    BracedOf("\\rename_{", c, "\\join_{");
    BracedOf("\\rename_{", c, "\\cross");
    BracedOf("\\rename_{", c, "\\union");
    BracedOf("\\rename_{", c, "\\diff");
    BracedOf("\\rename_{", c, "\\intersect");
  }

  /**
   * genViewDef of every variant, given its children's view names; for RENAME
   * this is the form used when the dialect can name a view's columns.
   */
  function ViewDef(op: Op, kids: seq<string>): string
    requires |kids| == Arity(op)
  {
    match op
    case Table(t) => "SELECT DISTINCT * FROM " + t
    case Select(c) => "SELECT * FROM " + kids[0] + " WHERE " + c
    case Project(cols) => "SELECT DISTINCT " + cols + " FROM " + kids[0]
    case Join(c) => "SELECT * FROM " + kids[0] + ", " + kids[1] + " WHERE " + c
    case Cross => "SELECT * FROM " + kids[0] + ", " + kids[1]
    case Union => "SELECT * FROM " + kids[0] + " UNION SELECT * FROM " + kids[1]
    case Diff => "SELECT * FROM " + kids[0] + " EXCEPT SELECT * FROM " + kids[1]
    case Intersect => "SELECT * FROM " + kids[0] + " INTERSECT SELECT * FROM " + kids[1]
    case Rename(_) => "SELECT * FROM " + kids[0]
  }

  /**
   * genViewCreateStatement: "CREATE VIEW name AS def", except RENAME on a
   * dialect that can name a view's columns, which lists them after the name.
   */
  function CreateStatement(name: string, op: Op, sqlite: bool, def: string): string {
    if op.Rename? && !sqlite then "CREATE VIEW " + name + "(" + op.columns + ") AS " + def
    else "CREATE VIEW " + name + " AS " + def
  }

  /** The database reads the node's own view name out of every CREATE VIEW statement the node issues. */
  lemma CreatedNameOfCreateStatement(k: nat, op: Op, sqlite: bool, def: string)
    ensures Database.CreatedName(CreateStatement(ViewName(k), op, sqlite, def)) == Some(ViewName(k))
  {
    var name := ViewName(k);
    var stmt := CreateStatement(name, op, sqlite, def);
    var rest := if op.Rename? && !sqlite then "(" + op.columns + ") AS " + def else " AS " + def;
    assert stmt == Database.CreateViewKeyword + (name + rest);
    assert stmt[..|Database.CreateViewKeyword|] == Database.CreateViewKeyword;
    assert stmt[|Database.CreateViewKeyword|..] == name + rest;
    ViewNameIsWord(k);
    TokenOf(name, rest, Database.NameStops);
  }

  /**
   * A CREATE VIEW statement read back: the view's name, the column list
   * written after it if there is one, and the definition after AS.
   */
  function ParseCreateStatement(stmt: string): Option<(string, Option<string>, string)> {
    if !StartsWith(stmt, Database.CreateViewKeyword) then None
    else
      var (name, rest) := Token(stmt[|Database.CreateViewKeyword|..], Database.NameStops);
      if StartsWith(rest, " AS ") then Some((name, None, rest[4..]))
      else if StartsWith(rest, "(") then
        var (cols, tail) := Token(rest[1..], {')'});
        if StartsWith(tail, ") AS ") then Some((name, Some(cols), tail[5..])) else None
      else None
  }

  /**
   * Every create statement reads back as the node's view name, RENAME's new
   * column names where the dialect lists them (a name list holds no closing
   * parenthesis), and the definition.
   */
  lemma ParseCreateStatementOf(k: nat, op: Op, sqlite: bool, def: string)
    requires op.Rename? && !sqlite ==> ')' !in op.columns
    ensures ParseCreateStatement(CreateStatement(ViewName(k), op, sqlite, def))
      == Some((ViewName(k), if op.Rename? && !sqlite then Some(op.columns) else None, def))
  {
    var name := ViewName(k);
    var stmt := CreateStatement(name, op, sqlite, def);
    var kw := Database.CreateViewKeyword;
    if op.Rename? && !sqlite {
      var rest := "(" + op.columns + ") AS " + def;
      assert stmt == kw + (name + rest);
      StartsWithConcat(kw, name + rest);
      ViewNameIsWord(k);
      TokenOf(name, rest, Database.NameStops);
      assert rest[0] == '(' && " AS "[0] != '(';
      assert rest == "(" + (op.columns + (") AS " + def));
      StartsWithConcat("(", op.columns + (") AS " + def));
      TokenOf(op.columns, ") AS " + def, {')'});
      StartsWithConcat(") AS ", def);
    } else {
      var rest := " AS " + def;
      assert stmt == kw + (name + rest);
      StartsWithConcat(kw, name + rest);
      ViewNameIsWord(k);
      TokenOf(name, rest, Database.NameStops);
      StartsWithConcat(" AS ", def);
    }
  }

  /**
   * The query a view definition denotes: a DISTINCT projection of a list
   * from one relation, a SELECT * over one or two relations with an optional
   * condition, or a set operation between two SELECT * queries.
   */
  datatype SqlQuery =
    | Distinct(list: string, relation: string)
    | Star(relations: seq<string>, condition: Option<string>)
    | Combined(keyword: string, left: string, right: string)

  /** The query each variant means to define over its children's views. */
  function QueryOf(op: Op, kids: seq<string>): SqlQuery
    requires |kids| == Arity(op)
  {
    match op
    case Table(t) => Distinct("*", t)
    case Select(c) => Star([kids[0]], Some(c))
    case Project(cols) => Distinct(cols, kids[0])
    case Join(c) => Star([kids[0], kids[1]], Some(c))
    case Cross => Star([kids[0], kids[1]], None)
    case Union => Combined("UNION", kids[0], kids[1])
    case Diff => Combined("EXCEPT", kids[0], kids[1])
    case Intersect => Combined("INTERSECT", kids[0], kids[1])
    case Rename(_) => Star([kids[0]], None)
  }

  const SelectDistinct: string := "SELECT DISTINCT "
  const SelectStar: string := "SELECT * FROM "
  const From: string := " FROM "
  const Where: string := " WHERE "
  const FromStops: set<char> := {' ', ','}

  /** The infix that joins the two SELECT * queries of a set operation. */
  function SetInfix(keyword: string): string {
    " " + keyword + " " + SelectStar
  }

  /** Reads the part after a first relation name in a SELECT * query. */
  function ParseStarTail(l: string, rest: string): Option<SqlQuery> {
    if rest == [] then Some(Star([l], None))
    else if StartsWith(rest, ", ") then
      var (r, rest2) := Token(rest[2..], FromStops);
      if rest2 == [] then Some(Star([l, r], None))
      else if StartsWith(rest2, Where) then Some(Star([l, r], Some(rest2[|Where|..])))
      else None
    else if StartsWith(rest, Where) then Some(Star([l], Some(rest[|Where|..])))
    else if rest[0] == ' ' then
      var (keyword, after) := Token(rest[1..], {' '});
      if StartsWith(after, " " + SelectStar) then Some(Combined(keyword, l, after[|SelectStar| + 1..])) else None
    else None
  }

  /** Reads a view definition back into the query it denotes. */
  function ParseViewDef(def: string): Option<SqlQuery> {
    if StartsWith(def, SelectDistinct) then
      var (head, from) := LastWord(def[|SelectDistinct|..]);
      if EndsWith(head, From) then Some(Distinct(head[..|head| - |From|], from)) else None
    else if StartsWith(def, SelectStar) then
      var (l, rest) := Token(def[|SelectStar|..], FromStops);
      ParseStarTail(l, rest)
    else None
  }

  lemma StartsWithConcat(a: string, b: string)
    ensures StartsWith(a + b, a) && (a + b)[|a|..] == b
  {
    assert (a + b)[..|a|] == a;
  }

  lemma ParseDistinct(list: string, from: string)
    requires ' ' !in from
    ensures ParseViewDef(SelectDistinct + list + From + from) == Some(Distinct(list, from))
  {
    var def := SelectDistinct + list + From + from;
    assert def == SelectDistinct + (list + From + from);
    StartsWithConcat(SelectDistinct, list + From + from);
    var head := list + From;
    assert head[|head| - 1] == ' ';
    LastWordOf(head, from);
    assert head[|head| - |From|..] == From;
  }

  lemma ParseStar(l: string, rest: string)
    requires IsWord(l)
    requires rest == [] || rest[0] in FromStops
    ensures ParseViewDef(SelectStar + l + rest) == ParseStarTail(l, rest)
  {
    var def := SelectStar + l + rest;
    assert def == SelectStar + (l + rest);
    StartsWithConcat(SelectStar, l + rest);
    assert def[7] == '*';
    assert !StartsWith(def, SelectDistinct);
    TokenOf(l, rest, FromStops);
  }

  lemma ParseTwo(l: string, r: string, tail: string)
    requires IsWord(r)
    requires tail == [] || tail[0] == ' '
    ensures ParseStarTail(l, ", " + r + tail) ==
      if tail == [] then Some(Star([l, r], None))
      else if StartsWith(tail, Where) then Some(Star([l, r], Some(tail[|Where|..])))
      else None
  {
    var rest := ", " + r + tail;
    assert rest == ", " + (r + tail);
    StartsWithConcat(", ", r + tail);
    TokenOf(r, tail, FromStops);
  }

  lemma ParseWhere(l: string, c: string)
    ensures ParseStarTail(l, Where + c) == Some(Star([l], Some(c)))
  {
    StartsWithConcat(Where, c);
    assert (Where + c)[0] == ' ' && (Where + c)[1] == 'W';
  }

  lemma ParseSetOp(l: string, keyword: string, r: string)
    requires keyword in ["UNION", "EXCEPT", "INTERSECT"]
    ensures ParseStarTail(l, SetInfix(keyword) + r) == Some(Combined(keyword, l, r))
  {
    var after := " " + SelectStar + r;
    var rest := SetInfix(keyword) + r;
    var head := " " + keyword;
    calc {
      rest;
      (head + " " + SelectStar) + r;
      { assert head + " " + SelectStar == head + (" " + SelectStar); }
      (head + (" " + SelectStar)) + r;
      { assert head + (" " + SelectStar) + r == head + (" " + SelectStar + r); }
      head + after;
      { assert " " + keyword + after == " " + (keyword + after); }
      " " + (keyword + after);
    }
    StartsWithConcat(" ", keyword + after);
    assert rest[0] == ' ' && rest[1] == keyword[0] && keyword[0] != 'W';
    assert !StartsWith(rest, ", ") && !StartsWith(rest, Where) by {
      assert ", "[0] != rest[0] && Where[1] != rest[1];
    }
    TokenOf(keyword, after, {' '});
    StartsWithConcat(" " + SelectStar, r);
    assert after[|SelectStar| + 1..] == r;
  }

  /**
   * Every dialect-independent view definition reads back as the query its
   * variant means, with the children's views in child order, provided the
   * children are named by identifiers and a table name has no blank.
   */
  lemma ParseViewDefOfViewDef(op: Op, kids: seq<string>)
    requires |kids| == Arity(op)
    requires forall i :: 0 <= i < |kids| ==> IsWord(kids[i])
    requires op.Table? ==> ' ' !in op.tableName
    ensures ParseViewDef(ViewDef(op, kids)) == Some(QueryOf(op, kids))
  {
    match op
    case Table(t) =>
      assert ViewDef(op, kids) == SelectDistinct + "*" + From + t;
      ParseDistinct("*", t);
    case Project(cols) =>
      assert ViewDef(op, kids) == SelectDistinct + cols + From + kids[0];
      assert forall i :: 0 <= i < |kids[0]| ==> kids[0][i] != ' ';
      ParseDistinct(cols, kids[0]);
    case Select(c) =>
      ParseSelectDef(kids[0], c);
    case Rename(_) =>
      ParseRenameDef(kids[0]);
    case Join(c) =>
      ParseJoinDef(kids[0], kids[1], c);
    case Cross =>
      ParseCrossDef(kids[0], kids[1]);
    case Union | Diff | Intersect =>
      ParseSetOpDef(op, kids);
  }

  lemma ParseSelectDef(k: string, c: string)
    requires IsWord(k)
    ensures ParseViewDef("SELECT * FROM " + k + " WHERE " + c) == Some(Star([k], Some(c)))
  {
    assert "SELECT * FROM " + k + " WHERE " + c == SelectStar + k + (Where + c);
    ParseStar(k, Where + c);
    ParseWhere(k, c);
  }

  lemma ParseRenameDef(k: string)
    requires IsWord(k)
    ensures ParseViewDef("SELECT * FROM " + k) == Some(Star([k], None))
  {
    assert "SELECT * FROM " + k == SelectStar + k + "";
    ParseStar(k, "");
  }

  lemma ParseJoinDef(k0: string, k1: string, c: string)
    requires IsWord(k0) && IsWord(k1)
    ensures ParseViewDef("SELECT * FROM " + k0 + ", " + k1 + " WHERE " + c) == Some(Star([k0, k1], Some(c)))
  {
    assert "SELECT * FROM " + k0 + ", " + k1 + " WHERE " + c == SelectStar + k0 + (", " + k1 + (Where + c));
    ParseStar(k0, ", " + k1 + (Where + c));
    ParseTwo(k0, k1, Where + c);
    StartsWithConcat(Where, c);
  }

  lemma ParseCrossDef(k0: string, k1: string)
    requires IsWord(k0) && IsWord(k1)
    ensures ParseViewDef("SELECT * FROM " + k0 + ", " + k1) == Some(Star([k0, k1], None))
  {
    assert "SELECT * FROM " + k0 + ", " + k1 == SelectStar + k0 + (", " + k1 + "");
    ParseStar(k0, ", " + k1 + "");
    ParseTwo(k0, k1, "");
  }

  /** A set operation's definition reads back as that operation over its two children. */
  lemma ParseSetOpDef(op: Op, kids: seq<string>)
    requires op.Union? || op.Diff? || op.Intersect?
    requires |kids| == 2 && IsWord(kids[0])
    ensures ParseViewDef(ViewDef(op, kids)) == Some(QueryOf(op, kids))
  {
    var keyword := QueryOf(op, kids).keyword;
    SetOpViewDef(op, kids);
    ParseStar(kids[0], SetInfix(keyword) + kids[1]);
    ParseSetOp(kids[0], keyword, kids[1]);
  }

  /** A set operation's definition is its left child, the operation's infix, and its right child. */
  lemma SetOpViewDef(op: Op, kids: seq<string>)
    requires op.Union? || op.Diff? || op.Intersect?
    requires |kids| == 2
    ensures ViewDef(op, kids) == SelectStar + kids[0] + (SetInfix(QueryOf(op, kids).keyword) + kids[1])
  {
    match op
    case Union =>
      assert "SELECT * FROM " + kids[0] + " UNION SELECT * FROM " + kids[1] == SelectStar + kids[0] + (SetInfix("UNION") + kids[1]);
    case Diff =>
      assert "SELECT * FROM " + kids[0] + " EXCEPT SELECT * FROM " + kids[1] == SelectStar + kids[0] + (SetInfix("EXCEPT") + kids[1]);
    case Intersect =>
      assert "SELECT * FROM " + kids[0] + " INTERSECT SELECT * FROM " + kids[1] == SelectStar + kids[0] + (SetInfix("INTERSECT") + kids[1]);
  }

  /**
   * parseColumnNames: `columns.split("\\s*,\\s*")`. Without a comma the
   * string comes back whole; otherwise it is cut at each comma, the
   * whitespace next to each comma is removed, and trailing empty names are
   * dropped, as Java's String.split does.
   */
  function ParseColumnNames(columns: string): (names: seq<string>)
    ensures forall i :: 0 <= i < |names| ==> ',' !in names[i]
  {
    if ',' !in columns then [columns]
    else DropTrailingEmpty(TrimAtCommas(Split(columns, ',')))
  }

  /** A piece cut at the commas, without the whitespace that touched a comma on its left and on its right. */
  function TrimPiece(p: string, left: bool, right: bool): (r: string)
    requires ',' !in p
    ensures ',' !in r
  {
    var q := if right then TrimRight(p) else p;
    CommaFreeSlice(p, 0, |q|);
    var r := if left then TrimLeft(q) else q;
    CommaFreeSlice(q, |q| - |r|, |q|);
    r
  }

  lemma CommaFreeSlice(s: string, a: nat, b: nat)
    requires a <= b <= |s| && ',' !in s
    ensures ',' !in s[a..b]
  {
    forall k | 0 <= k < b - a
      ensures s[a..b][k] != ','
    {
      assert s[a..b][k] == s[a + k];
    }
  }

  /** Removes the whitespace before each comma (ends of all but the last piece) and after it (starts of all but the first). */
  function TrimAtCommas(pieces: seq<string>): (r: seq<string>)
    requires forall i :: 0 <= i < |pieces| ==> ',' !in pieces[i]
    ensures |r| == |pieces| && forall i :: 0 <= i < |r| ==> ',' !in r[i]
  {
    seq(|pieces|, i requires 0 <= i < |pieces| => TrimPiece(pieces[i], i > 0, i < |pieces| - 1))
  }

  /** Java's String.split drops the empty strings at the end of its result. */
  function DropTrailingEmpty(names: seq<string>): (r: seq<string>)
    ensures |r| <= |names| && r == names[..|r|]
    ensures r == [] || r[|r| - 1] != ""
    ensures forall i :: |r| <= i < |names| ==> names[i] == ""
    decreases |names|
  {
    if names != [] && names[|names| - 1] == "" then DropTrailingEmpty(names[..|names| - 1]) else names
  }

  /** A column name as the RA grammar writes one: non-empty, comma-free, no surrounding whitespace. */
  predicate IsColumnName(name: string) {
    name != [] && ',' !in name && !IsSpace(name[0]) && !IsSpace(name[|name| - 1])
  }

  /**
   * The new names RENAME takes are those written in its list: a list of names
   * separated by ", " parses back to exactly those names, in order. Lists
   * spaced otherwise ("a ,b", "a,\tb") are covered by ParseColumnNames's
   * definition alone.
   */
  lemma ParseColumnNamesOfJoin(names: seq<string>)
    requires |names| >= 1
    requires forall i :: 0 <= i < |names| ==> IsColumnName(names[i])
    ensures ParseColumnNames(JoinWith(", ", names)) == names
  {
    if |names| == 1 {
      assert JoinWith(", ", names) == names[0];
    } else {
      CommaInJoin(names);
      SplitCommaSpace(names);
      TrimAtCommasOfSpaced(names);
      assert names[|names| - 1] != "";
    }
  }

  lemma CommaInJoin(names: seq<string>)
    requires |names| >= 2
    ensures ',' in JoinWith(", ", names)
  {
    var s := JoinWith(", ", names);
    assert s == names[0] + ", " + JoinWith(", ", names[1..]);
    assert s[|names[0]|] == ',';
  }

  /** Trimming the pieces of a ", "-joined list at its commas removes exactly the blanks the joining added. */
  lemma TrimAtCommasOfSpaced(names: seq<string>)
    requires |names| >= 1
    requires forall i :: 0 <= i < |names| ==> IsColumnName(names[i])
    requires forall i :: 0 <= i < |names| ==> ',' !in names[i]
    ensures TrimAtCommas(Spaced(names)) == names
  {
    var sp := Spaced(names);
    var trimmed := TrimAtCommas(sp);
    forall i | 0 <= i < |names|
      ensures trimmed[i] == names[i]
    {
      if i == 0 {
        assert TrimRight(names[0]) == names[0];
      } else {
        assert sp[i] == [' '] + names[i];
        TrimLeftSpaces(names[i]);
        if i < |names| - 1 {
          assert TrimRight(sp[i]) == sp[i];
        }
      }
    }
  }

  /** The SELECT list of SQLite's RENAME: `old_i AS new_i` for each position i. */
  function RenameItems(oldNames: seq<string>, newNames: seq<string>): (items: seq<string>)
    requires |oldNames| == |newNames|
  {
    seq(|newNames|, i requires 0 <= i < |newNames| => oldNames[i] + " AS " + newNames[i])
  }

  /** The view definition RENAME uses on SQLite, which cannot name a view's columns. */
  function RenameDef(oldNames: seq<string>, newNames: seq<string>, child: string): string
    requires |oldNames| == |newNames|
  {
    "SELECT " + JoinWith(", ", RenameItems(oldNames, newNames)) + " FROM " + child
  }

  /** The loop of RENAME.genViewDef that accumulates the SELECT list on SQLite. */
  method RenameSelect(oldNames: seq<string>, newNames: seq<string>, child: string) returns (viewDef: string)
    requires |oldNames| == |newNames|
    ensures viewDef == RenameDef(oldNames, newNames, child)
  {
    var items := RenameItems(oldNames, newNames);
    viewDef := "SELECT ";
    var i := 0;
    while i < |newNames|
      invariant 0 <= i <= |newNames|
      invariant viewDef == "SELECT " + JoinWith(", ", items[..i])
    {
      JoinCommaStep("SELECT ", items, i, oldNames[i], " AS ", newNames[i]);
      if i > 0 {
        viewDef := viewDef + ", ";
      }
      viewDef := viewDef + oldNames[i] + " AS " + newNames[i];
      i := i + 1;
    }
    assert items[..i] == items;
    viewDef := viewDef + " FROM " + child;
  }

  /**
   * The SQLite RENAME list renames positionally: cut at its commas, piece i
   * is the child's i-th column name, " AS ", and the i-th new name.
   */
  lemma RenameDefPositional(oldNames: seq<string>, newNames: seq<string>, child: string)
    requires |oldNames| == |newNames| >= 1
    requires forall i :: 0 <= i < |newNames| ==> ',' !in oldNames[i] && ',' !in newNames[i]
    ensures var list := JoinWith(", ", RenameItems(oldNames, newNames));
      && RenameDef(oldNames, newNames, child) == "SELECT " + list + " FROM " + child
      && |Split(list, ',')| == |newNames|
      && forall i :: 0 <= i < |newNames| ==>
           Split(list, ',')[i] == (if i == 0 then "" else " ") + oldNames[i] + " AS " + newNames[i]
  {
    var items := RenameItems(oldNames, newNames);
    forall i | 0 <= i < |items|
      ensures ',' !in items[i]
    {
      assert items[i] == oldNames[i] + " AS " + newNames[i];
    }
    SplitCommaSpace(items);
  }
}
