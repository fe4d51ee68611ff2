/**
 * RAXNode: one node of an algebra tree, with its generated view name, its
 * status and cached output schema (the only fields that change), and its
 * children. validate, execute and clean work on the node in place and talk
 * to the database session; each is proved to compute the corresponding
 * function of module Lifecycle on the tree the node and its descendants
 * represent.
 */
module Nodes {
  import opened Wrappers
  import opened ViewNames
  import opened Schema
  import opened Database
  import opened RAXText
  import Lifecycle
  import opened Construction

  type Status = Lifecycle.Status
  type Tree = Lifecycle.Tree
  type Outcome = Lifecycle.Outcome
  type Gen = Lifecycle.Gen

  /** The nodes of the subtrees rooted at `cs`. */
  ghost function ReprOf(cs: seq<RAXNode>): set<RAXNode> {
    set i, o | 0 <= i < |cs| && o in cs[i].Repr :: o
  }

  class RAXNode {
    const op: Op
    /** The k of this node's view RA_TMP_VIEW_k. */
    ghost const number: nat
    const viewName: string
    const children: seq<RAXNode>
    var status: Status
    var outputSchema: Option<TableSchema>
    /** This node and all nodes below it. */
    ghost const Repr: set<RAXNode>

    /**
     * The children form a tree below this node: as many as the variant
     * takes, each with its own disjoint set of nodes not containing this one.
     */
    ghost predicate Valid()
      decreases Repr
    {
      && this in Repr
      && viewName == ViewName(number)
      && |children| == Arity(op)
      && (forall i :: 0 <= i < |children| ==>
            children[i] in Repr && children[i].Repr <= Repr && this !in children[i].Repr)
      && (forall i, j :: 0 <= i < j < |children| ==> children[i].Repr !! children[j].Repr)
      && (forall i :: 0 <= i < |children| ==> children[i].Valid())
    }

    /** The tree this node represents. */
    ghost function Abs(): (t: Tree)
      requires Valid()
      reads Repr
      ensures t.op == op && t.number == number && t.status == status && t.schema == outputSchema
      ensures |t.kids| == |children| && forall i {:trigger t.kids[i]} :: 0 <= i < |children| ==> t.kids[i] == children[i].Abs()
      ensures Lifecycle.WellFormed(t)
      decreases Repr, 1
    {
      Lifecycle.Node(op, number, status, outputSchema, KidsAbs(|children|))
    }

    ghost function KidsAbs(n: nat): (ts: seq<Tree>)
      requires Valid() && n <= |children|
      reads Repr
      ensures |ts| == n && forall i {:trigger ts[i]} :: 0 <= i < n ==> ts[i] == children[i].Abs()
      decreases Repr, 0, n
    {
      if n == 0 then [] else KidsAbs(n - 1) + [children[n - 1].Abs()]
    }

    /** The children's view names, in child order. */
    function ChildNames(): (names: seq<string>)
      ensures |names| == |children| && forall i :: 0 <= i < |children| ==> names[i] == children[i].viewName
    {
      seq(|children|, i requires 0 <= i < |children| => children[i].viewName)
    }

    /**
     * A new node: it draws the next view name from the generator, is
     * UNCHECKED and has no schema yet.
     */
    constructor (op: Op, children: seq<RAXNode>, gen: ViewNameGenerator)
      requires |children| == Arity(op)
      requires forall i :: 0 <= i < |children| ==> children[i].Valid()
      requires forall i, j :: 0 <= i < j < |children| ==> children[i].Repr !! children[j].Repr
      modifies gen
      ensures Valid()
      ensures this.op == op && this.children == children
      ensures number == old(gen.count) + 1 && gen.count == number && viewName == ViewName(number)
      ensures status == Lifecycle.Unchecked && outputSchema == None
      ensures Repr == {this} + ReprOf(children)
    {
      this.op := op;
      var name := gen.Generate();
      number := gen.count;
      viewName := name;
      this.children := children;
      status := Lifecycle.Unchecked;
      outputSchema := None;
      Repr := {this} + ReprOf(children);
    }

    /**
     * genViewDef. Only RENAME on SQLite talks to the database: it fetches the
     * child's schema, parses the new names and, when the counts agree, lists
     * `old AS new` for each column; every other case is the plain definition.
     */
    method GenViewDef(db: DB) returns (g: Gen)
      requires Valid()
      modifies db
      ensures (g, db.State()) == Lifecycle.GenViewDef(db.engine, db.IsSQLite(), old(db.State()), op, ChildNames())
    {
      if op.Rename? && db.IsSQLite() {
        var inputSchema := db.GetTableSchema(children[0].viewName);
        if inputSchema.None? {
          return Lifecycle.GenSqlError;
        }
        var columnNames := ParseColumnNames(op.columns);
        if |inputSchema.value.colNames| != |columnNames| {
          return Lifecycle.GenMismatch;
        }
        var viewDef := RenameSelect(inputSchema.value.colNames, columnNames, children[0].viewName);
        return Lifecycle.Generated(viewDef);
      }
      return Lifecycle.Generated(ViewDef(op, ChildNames()));
    }

    /** genViewCreateStatement: the CREATE VIEW statement around the generated definition. */
    method GenViewCreateStatement(db: DB) returns (g: Gen)
      requires Valid()
      modifies db
      ensures (g, db.State()) == Lifecycle.GenViewCreate(db.engine, db.IsSQLite(), old(db.State()), viewName, op, ChildNames())
    {
      g := GenViewDef(db);
      if g.Generated? {
        g := Lifecycle.Generated(CreateStatement(viewName, op, db.IsSQLite(), g.text));
      }
    }

    /** `t` agrees with this node's own fields and children's names. */
    ghost predicate Describes(t: Tree)
      reads this
    {
      && t.op == op && t.number == number && viewName == Lifecycle.Name(t)
      && t.status == status && t.schema == outputSchema
      && |t.kids| == Arity(op) && Lifecycle.KidNames(t.kids) == ChildNames()
    }

    /**
     * The node's own step of validate, once its children are validated: drop
     * a stale view of the same name, ignoring failure, then generate the
     * create statement; `t` is the tree at this point.
     */
    method ValidateSelf(db: DB, ghost t: Tree) returns (outcome: Outcome)
      requires Valid() && Describes(t)
      modifies this, db
      ensures var r := Lifecycle.ValidateSelf(db.engine, db.IsSQLite(), old(db.State()), t);
        outcome == r.0 && db.State() == r.2 && status == r.1.status && outputSchema == r.1.schema
    {
      ghost var e, sq := db.engine, db.IsSQLite();
      var _ := db.DropView(viewName);
      ghost var d1 := db.State();
      var g := GenViewCreateStatement(db);
      if g.GenMismatch? {
        return Lifecycle.Raised(viewName, Lifecycle.Message(Lifecycle.IncorrectRenameMessage));
      } else if g.GenSqlError? {
        status := Lifecycle.Error;
        return Lifecycle.Raised(viewName, Lifecycle.SqlError);
      }
      CreatedNameOfCreateStatement(number, op, sq, Lifecycle.GenViewDef(e, sq, d1, op, ChildNames()).0.text);
      outcome := CreateAndDescribe(db, g.text, t);
    }

    /** The node's own step of validate, stated on the whole tree the node represents. */
    method ValidateNode(db: DB, ghost t: Tree) returns (outcome: Outcome)
      requires Valid() && Describes(t)
      requires forall j :: 0 <= j < |children| ==> children[j].Abs() == t.kids[j]
      modifies this, db
      ensures (outcome, Abs(), db.State()) == Lifecycle.ValidateSelf(db.engine, db.IsSQLite(), old(db.State()), t)
    {
      ghost var r := Lifecycle.ValidateSelf(db.engine, db.IsSQLite(), db.State(), t);
      outcome := ValidateSelf(db, t);
      forall j | 0 <= j < |children|
        ensures children[j].Abs() == t.kids[j]
      {
        assert unchanged(children[j].Repr);
      }
      ChildrenAbs(t.kids);
      assert Abs() == r.1;
    }

    /**
     * Run the create statement, then fetch the new view's schema; an SQL
     * error in either marks the node ERROR.
     */
    method CreateAndDescribe(db: DB, stmt: string, ghost t: Tree) returns (outcome: Outcome)
      requires Describes(t)
      requires CreatedName(stmt) == Some(viewName)
      modifies this, db
      ensures var r := Lifecycle.CreateAndDescribe(db.engine, old(db.State()), t, stmt);
        outcome == r.0 && db.State() == r.2 && status == r.1.status && outputSchema == r.1.schema
    {
      var created := db.CreateView(stmt);
      if !created {
        status := Lifecycle.Error;
        return Lifecycle.Raised(viewName, Lifecycle.SqlError);
      }
      var schema := db.GetTableSchema(viewName);
      if schema.None? {
        status := Lifecycle.Error;
        return Lifecycle.Raised(viewName, Lifecycle.SqlError);
      }
      outputSchema := schema;
      status := Lifecycle.Correct;
      return Lifecycle.Ok;
    }

    /**
     * validate: the children first, left to right, stopping at the first
     * that raises; then the node's own step.
     */
    method Validate(db: DB) returns (outcome: Outcome)
      requires Valid()
      modifies Repr, db
      ensures (outcome, Abs(), db.State()) == Lifecycle.Validate(db.engine, db.IsSQLite(), old(db.State()), old(Abs()))
      decreases Repr, 3
    {
      ghost var t0, d0 := Abs(), db.State();
      ghost var kids;
      outcome, kids := ValidateChildren(db, t0.kids);
      Lifecycle.ValidateAfterKids(db.engine, db.IsSQLite(), d0, t0, outcome, kids, db.State());
      if outcome.Raised? {
        ChildrenAbs(kids);
        return;
      }
      outcome := ValidateNode(db, t0.(kids := kids));
    }

    /** The loop over the children in validate; `kids` are their trees afterwards. */
    method ValidateChildren(db: DB, ghost ts: seq<Tree>) returns (outcome: Outcome, ghost kids: seq<Tree>)
      requires Valid() && |ts| == |children|
      requires forall j :: 0 <= j < |children| ==> children[j].Abs() == ts[j]
      requires forall j :: 0 <= j < |ts| ==> Lifecycle.WellFormed(ts[j])
      modifies Repr - {this}, db
      ensures |kids| == |children| && forall j :: 0 <= j < |children| ==> children[j].Abs() == kids[j]
      ensures (outcome, kids, db.State()) == Lifecycle.ValidateKids(db.engine, db.IsSQLite(), old(db.State()), ts)
      decreases Repr, 2
    {
      ghost var d0 := db.State();
      Lifecycle.KidsProgressStart(db.engine, db.IsSQLite(), d0, ts);
      kids := ts;
      var i := 0;
      while i < |children|
        invariant 0 <= i <= |children| && ChildrenValidated(db, d0, ts, i, kids)
      {
        var o;
        o, kids := ValidateNext(db, i, kids, d0, ts);
        if o.Raised? {
          return o, kids;
        }
        i := i + 1;
      }
      Lifecycle.KidsProgressEnd(db.engine, db.IsSQLite(), d0, ts, kids, db.State());
      outcome := Lifecycle.Ok;
    }

    /**
     * The first `i` children, whose trees were `ts`, have been validated from
     * state `d0`; `kids` holds all children's trees now.
     */
    ghost predicate ChildrenValidated(db: DB, d0: DbState, ts: seq<Tree>, i: nat, kids: seq<Tree>)
      requires Valid()
      reads Repr, db
    {
      && i <= |children| == |kids| == |ts|
      && (forall j :: 0 <= j < |ts| ==> Lifecycle.WellFormed(ts[j]))
      && (forall j :: 0 <= j < |children| ==> children[j].Abs() == kids[j])
      && kids[i..] == ts[i..]
      && Lifecycle.KidsProgress(db.engine, db.IsSQLite(), d0, ts, i, kids[..i], db.State())
    }

    /** Validate child `i` and record its tree in `kids`. */
    method ValidateNext(db: DB, i: nat, ghost kids: seq<Tree>, ghost d0: DbState, ghost ts: seq<Tree>)
      returns (outcome: Outcome, ghost kids': seq<Tree>)
      requires Valid() && i < |children| && ChildrenValidated(db, d0, ts, i, kids)
      modifies Repr - {this}, db
      ensures outcome.Raised? ==>
        |kids'| == |children| && (forall j :: 0 <= j < |children| ==> children[j].Abs() == kids'[j])
        && Lifecycle.ValidateKids(db.engine, db.IsSQLite(), d0, ts) == (outcome, kids', db.State())
      ensures outcome == Lifecycle.Ok ==> ChildrenValidated(db, d0, ts, i + 1, kids')
      decreases Repr, 1
    {
      ghost var d := db.State();
      assert kids[i] == ts[i] by {
        assert kids[i..][0] == ts[i..][0];
      }
      outcome, kids' := ValidateChild(db, i, kids);
      ReplaceAt(kids, ts, i, kids');
      if outcome.Raised? {
        Lifecycle.KidsProgressRaised(db.engine, db.IsSQLite(), d0, ts, i, kids[..i], d, outcome, kids'[i], db.State());
      } else {
        Lifecycle.KidsProgressNext(db.engine, db.IsSQLite(), d0, ts, i, kids[..i], d, kids'[i], db.State());
      }
    }

    /** Validate child `i`; `kids` holds the children's trees before and after. */
    method ValidateChild(db: DB, i: nat, ghost kids: seq<Tree>) returns (outcome: Outcome, ghost kids': seq<Tree>)
      requires Valid() && i < |children| && |kids| == |children|
      requires forall j :: 0 <= j < |children| ==> children[j].Abs() == kids[j]
      requires Lifecycle.WellFormed(kids[i])
      modifies Repr - {this}, db
      ensures |kids'| == |kids| && kids' == kids[i := kids'[i]]
      ensures forall j :: 0 <= j < |children| ==> children[j].Abs() == kids'[j]
      ensures (outcome, kids'[i], db.State()) == Lifecycle.Validate(db.engine, db.IsSQLite(), old(db.State()), kids[i])
      decreases Repr, 0
    {
      outcome := children[i].Validate(db);
      kids' := kids[i := children[i].Abs()];
      forall j | 0 <= j < |children| && j != i
        ensures children[j].Abs() == kids'[j]
      {
        assert children[j].Repr !! children[i].Repr;
        assert unchanged(children[j].Repr);
      }
    }

    /** execute: run "SELECT * FROM" the node's view, on a node that validated. */
    method Execute(db: DB) returns (ok: bool)
      requires Valid() && status == Lifecycle.Correct
      modifies db
      ensures (ok, db.State()) == Query(db.engine, old(db.State()), "SELECT * FROM " + viewName)
      ensures Abs() == old(Abs())
    {
      ok := db.ExecQueryAndOutputResult("SELECT * FROM " + viewName);
    }

    /**
     * clean: a CORRECT node drops its view (a failure stops the clean) and an
     * ERROR node is marked UNCHECKED; then the children, left to right,
     * stopping at the first whose clean fails.
     */
    method Clean(db: DB) returns (ok: bool)
      requires Valid()
      modifies Repr, db
      ensures (ok, Abs(), db.State()) == Lifecycle.Clean(db.engine, old(db.State()), old(Abs()))
      decreases Repr, 3
    {
      ghost var t0, d0 := Abs(), db.State();
      ok := CleanNode(db);
      forall j | 0 <= j < |children|
        ensures children[j].Abs() == t0.kids[j]
      {
        assert unchanged(children[j].Repr);
      }
      if !ok {
        ChildrenAbs(t0.kids);
        return;
      }
      ghost var d1 := db.State();
      ghost var kids;
      ok, kids := CleanChildren(db, t0.kids);
      Lifecycle.CleanAfterSelf(db.engine, d0, t0, d1, ok, kids, db.State());
      ChildrenAbs(kids);
    }

    /** The node's own step of clean: drop the view of a CORRECT node, then mark the node UNCHECKED. */
    method CleanNode(db: DB) returns (ok: bool)
      requires Valid()
      modifies this, db
      ensures old(status) == Lifecycle.Correct ==> (ok, db.State()) == Drop(db.engine, old(db.State()), viewName)
      ensures old(status) != Lifecycle.Correct ==> ok && db.State() == old(db.State())
      ensures status == (if ok then Lifecycle.Unchecked else old(status)) && outputSchema == old(outputSchema)
    {
      ok := true;
      if status == Lifecycle.Unchecked {
      } else if status == Lifecycle.Correct {
        ok := db.DropView(viewName);
        if !ok {
          return;
        }
        status := Lifecycle.Unchecked;
      } else if status == Lifecycle.Error {
        status := Lifecycle.Unchecked;
      }
    }

    /** The loop over the children in clean; `kids` are their trees afterwards. */
    method CleanChildren(db: DB, ghost ts: seq<Tree>) returns (ok: bool, ghost kids: seq<Tree>)
      requires Valid() && |ts| == |children|
      requires forall j :: 0 <= j < |children| ==> children[j].Abs() == ts[j]
      modifies Repr - {this}, db
      ensures |kids| == |children| && forall j :: 0 <= j < |children| ==> children[j].Abs() == kids[j]
      ensures (ok, kids, db.State()) == Lifecycle.CleanKids(db.engine, old(db.State()), ts)
      decreases Repr, 2
    {
      ghost var d0 := db.State();
      Lifecycle.CleanProgressStart(db.engine, d0, ts);
      kids := ts;
      ok := true;
      var i := 0;
      while ok && i < |children|
        invariant 0 <= i <= |children|
        invariant ok ==> ChildrenCleaned(db, d0, ts, i, kids)
        invariant !ok ==> ChildrenStopped(db, d0, ts, kids)
      {
        ok, kids := CleanNext(db, i, kids, d0, ts);
        i := i + 1;
      }
      if ok {
        Lifecycle.CleanProgressEnd(db.engine, d0, ts, kids, db.State());
      }
    }

    ghost predicate ChildrenStopped(db: DB, d0: DbState, ts: seq<Tree>, kids: seq<Tree>)
      requires Valid()
      reads Repr, db
    {
      && |kids| == |children|
      && (forall j :: 0 <= j < |children| ==> children[j].Abs() == kids[j])
      && Lifecycle.CleanKids(db.engine, d0, ts) == (false, kids, db.State())
    }

    /**
     * The first `i` children, whose trees were `ts`, have been cleaned from
     * state `d0`; `kids` holds all children's trees now.
     */
    ghost predicate ChildrenCleaned(db: DB, d0: DbState, ts: seq<Tree>, i: nat, kids: seq<Tree>)
      requires Valid()
      reads Repr, db
    {
      && i <= |children| == |kids| == |ts|
      && (forall j :: 0 <= j < |children| ==> children[j].Abs() == kids[j])
      && kids[i..] == ts[i..]
      && Lifecycle.CleanProgress(db.engine, d0, ts, i, kids[..i], db.State())
    }

    /** Clean child `i` and record its tree in `kids`. */
    method CleanNext(db: DB, i: nat, ghost kids: seq<Tree>, ghost d0: DbState, ghost ts: seq<Tree>)
      returns (ok: bool, ghost kids': seq<Tree>)
      requires Valid() && i < |children| && ChildrenCleaned(db, d0, ts, i, kids)
      modifies Repr - {this}, db
      ensures !ok ==> ChildrenStopped(db, d0, ts, kids')
      ensures ok ==> ChildrenCleaned(db, d0, ts, i + 1, kids')
      decreases Repr, 1
    {
      ghost var d := db.State();
      assert kids[i] == ts[i] by {
        assert kids[i..][0] == ts[i..][0];
      }
      ok, kids' := CleanChild(db, i, kids);
      ReplaceAt(kids, ts, i, kids');
      if !ok {
        Lifecycle.CleanProgressFailed(db.engine, d0, ts, i, kids[..i], d, kids'[i], db.State());
      } else {
        Lifecycle.CleanProgressNext(db.engine, d0, ts, i, kids[..i], d, kids'[i], db.State());
      }
    }

    /** Clean child `i`; `kids` holds the children's trees before and after. */
    method CleanChild(db: DB, i: nat, ghost kids: seq<Tree>) returns (ok: bool, ghost kids': seq<Tree>)
      requires Valid() && i < |children| && |kids| == |children|
      requires forall j :: 0 <= j < |children| ==> children[j].Abs() == kids[j]
      modifies Repr - {this}, db
      ensures |kids'| == |kids| && kids' == kids[i := kids'[i]]
      ensures forall j :: 0 <= j < |children| ==> children[j].Abs() == kids'[j]
      ensures (ok, kids'[i], db.State()) == Lifecycle.Clean(db.engine, old(db.State()), kids[i])
      decreases Repr, 0
    {
      ok := children[i].Clean(db);
      kids' := kids[i := children[i].Abs()];
      forall j | 0 <= j < |children| && j != i
        ensures children[j].Abs() == kids'[j]
      {
        assert children[j].Repr !! children[i].Repr;
        assert unchanged(children[j].Repr);
      }
    }

    /** Replacing entry `i` of a list that agrees with `ts` from `i` on. */
    static lemma ReplaceAt(before: seq<Tree>, ts: seq<Tree>, i: nat, after: seq<Tree>)
      requires i < |before| == |ts| && before[i..] == ts[i..]
      requires |after| == |before| && after == before[i := after[i]]
      ensures after == before[..i] + [after[i]] + ts[i + 1..]
      ensures after[..i + 1] == before[..i] + [after[i]] && after[i + 1..] == ts[i + 1..]
    {
      assert before[i + 1..] == before[i..][1..];
    }

    /** When `ts` holds each child's tree, the node's tree has `ts` as its children. */
    lemma ChildrenAbs(ts: seq<Tree>)
      requires Valid() && |ts| == |children|
      requires forall j :: 0 <= j < |children| ==> children[j].Abs() == ts[j]
      ensures Abs().kids == ts
    {
    }
  }

  /** The nodes of `kids` are valid, in disjoint trees, and represent `ts`. */
  ghost predicate Forest(kids: seq<RAXNode>, ts: seq<Tree>)
    reads ReprOf(kids)
  {
    && |kids| == |ts|
    && (forall j :: 0 <= j < |kids| ==> kids[j] in kids[j].Repr && kids[j].Valid())
    && (forall j :: 0 <= j < |kids| ==> kids[j].Abs() == ts[j])
    && (forall j, k :: 0 <= j < k < |kids| ==> kids[j].Repr !! kids[k].Repr)
  }

  /**
   * The node tree of an expression, as the per-variant constructors build
   * it: the arguments first, left to right, each drawing its view names from
   * the generator, then the node itself.
   */
  method Build(x: Expr, gen: ViewNameGenerator) returns (node: RAXNode)
    requires WellFormedExpr(x)
    modifies gen
    ensures node.Valid()
    ensures fresh(node.Repr)
    ensures node.Abs() == Built(x, old(gen.count))
    ensures gen.count == old(gen.count) + Size(x)
    decreases x
  {
    ghost var start := gen.count;
    var kids := BuildArgs(x.args, gen);
    ghost var below := ReprOf(kids);
    node := new RAXNode(x.op, kids, gen);
    assert node.Repr == {node} + below;
    node.ChildrenAbs(BuiltOf(x.args, start));
    assert node.number == start + Size(x);
  }

  /** The argument nodes, left to right, numbered one after another. */
  method BuildArgs(xs: seq<Expr>, gen: ViewNameGenerator) returns (kids: seq<RAXNode>)
    requires forall i :: 0 <= i < |xs| ==> WellFormedExpr(xs[i])
    modifies gen
    ensures Forest(kids, BuiltOf(xs, old(gen.count))) && fresh(ReprOf(kids))
    ensures gen.count == old(gen.count) + SizeOf(xs)
    decreases xs
  {
    if xs == [] {
      assert ReprOf([]) == {};
      return [];
    }
    ghost var start := gen.count;
    var first := Build(xs[0], gen);
    ghost var mid := gen.count;
    var rest := BuildArgs(xs[1..], gen);
    assert Forest(rest, BuiltOf(xs[1..], mid));
    assert first.Repr !! ReprOf(rest);
    kids := [first] + rest;
    ReprOfCons(first, rest);
    BuiltOfCons(xs, start);
    ForestCons(first, rest, Built(xs[0], start), BuiltOf(xs[1..], mid), BuiltOf(xs, start));
  }

  lemma ReprOfCons(first: RAXNode, rest: seq<RAXNode>)
    ensures ReprOf([first] + rest) == first.Repr + ReprOf(rest)
  {
    var kids := [first] + rest;
    forall o | o in first.Repr
      ensures o in ReprOf(kids)
    {
      assert kids[0] == first;
    }
    forall o | o in ReprOf(rest)
      ensures o in ReprOf(kids)
    {
      var i :| 0 <= i < |rest| && o in rest[i].Repr;
      assert kids[i + 1] == rest[i];
    }
    forall o | o in ReprOf(kids)
      ensures o in first.Repr + ReprOf(rest)
    {
      var i :| 0 <= i < |kids| && o in kids[i].Repr;
      if i > 0 {
        assert kids[i] == rest[i - 1];
      }
    }
  }

  /** A fresh tree in front of a forest allocated after it. */
  lemma ForestCons(first: RAXNode, rest: seq<RAXNode>, t: Tree, ts: seq<Tree>, all: seq<Tree>)
    requires first in first.Repr && first.Valid() && first.Abs() == t
    requires Forest(rest, ts) && all == [t] + ts
    requires first.Repr !! ReprOf(rest)
    ensures Forest([first] + rest, all)
  {
    var kids := [first] + rest;
    forall j, k | 0 <= j < k < |kids|
      ensures kids[j].Repr !! kids[k].Repr
    {
      if j == 0 {
        assert kids[k] == rest[k - 1];
      } else {
        assert kids[j] == rest[j - 1] && kids[k] == rest[k - 1];
      }
    }
  }
}
