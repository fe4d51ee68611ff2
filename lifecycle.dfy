/**
 * The view lifecycle of an algebra tree, stated on values: the tree as a
 * datatype (operator, view number, status, cached schema, children), and
 * validate and clean as functions from a database state and a tree to an
 * outcome, the new tree and the new database state. The node class is
 * proved to compute exactly these functions; the lemmas here say what they
 * guarantee.
 */
module Lifecycle {
  import opened Wrappers
  import opened ViewNames
  import opened Schema
  import opened Database
  import opened RAXText

  /** RAXNode.Status. */
  datatype Status = Error | Unchecked | Correct

  /** A node: its operator, the number k of its view RA_TMP_VIEW_k, its status, its cached schema and its children. */
  datatype Tree = Node(op: Op, number: nat, status: Status, schema: Option<TableSchema>, kids: seq<Tree>)

  /** Why validation stopped: an SQL error from the database, or a message of its own. */
  datatype Cause = SqlError | Message(text: string)

  /** validate returned normally, or raised a ValidateException naming the node (by its view) that failed. */
  datatype Outcome = Ok | Raised(errorNode: string, cause: Cause)

  /** What generating a view definition gave: the text, an SQL error, or RENAME's column-count mismatch. */
  datatype Gen = Generated(text: string) | GenSqlError | GenMismatch

  const IncorrectRenameMessage: string := "renaming an incorrect number of columns"

  function Name(t: Tree): string {
    ViewName(t.number)
  }

  function KidNames(ts: seq<Tree>): (names: seq<string>)
    ensures |names| == |ts| && forall i :: 0 <= i < |ts| ==> names[i] == Name(ts[i])
  {
    seq(|ts|, i requires 0 <= i < |ts| => Name(ts[i]))
  }

  /** Every node has as many children as its variant's constructor takes. */
  predicate WellFormed(t: Tree)
    decreases t
  {
    |t.kids| == Arity(t.op) && forall i :: 0 <= i < |t.kids| ==> WellFormed(t.kids[i])
  }

  /** Same operators, view numbers and child structure; statuses and schemas may differ. */
  predicate SameShape(a: Tree, b: Tree)
    decreases a
  {
    a.op == b.op && a.number == b.number && |a.kids| == |b.kids|
    && forall i :: 0 <= i < |a.kids| ==> SameShape(a.kids[i], b.kids[i])
  }

  /** The views of all nodes of a tree. */
  function Names(t: Tree): set<string>
    decreases t
  {
    {Name(t)} + NamesOf(t.kids)
  }

  function NamesOf(ts: seq<Tree>): set<string>
    decreases ts
  {
    if ts == [] then {} else Names(ts[0]) + NamesOf(ts[1..])
  }

  /** No two nodes share a view name. */
  predicate UniqueNames(t: Tree)
    decreases t
  {
    Name(t) !in NamesOf(t.kids) && UniqueNamesOf(t.kids)
  }

  predicate UniqueNamesOf(ts: seq<Tree>)
    decreases ts
  {
    ts == [] || (UniqueNames(ts[0]) && Names(ts[0]) !! NamesOf(ts[1..]) && UniqueNamesOf(ts[1..]))
  }

  predicate AllCorrect(t: Tree)
    decreases t
  {
    t.status == Correct && t.schema.Some? && forall i :: 0 <= i < |t.kids| ==> AllCorrect(t.kids[i])
  }

  predicate AllUnchecked(t: Tree)
    decreases t
  {
    t.status == Unchecked && forall i :: 0 <= i < |t.kids| ==> AllUnchecked(t.kids[i])
  }

  /**
   * genViewDef with its database effects: only RENAME on SQLite talks to the
   * database, fetching the child's schema to pair its column names with the
   * new ones.
   */
  function GenViewDef(e: Engine, sqlite: bool, d: DbState, op: Op, kids: seq<string>): (r: (Gen, DbState))
    requires |kids| == Arity(op)
  {
    if op.Rename? && sqlite then
      var (input, d1) := TableSchemaOf(e, d, kids[0]);
      if input.None? then (GenSqlError, d1)
      else
        var names := ParseColumnNames(op.columns);
        if |input.value.colNames| != |names| then (GenMismatch, d1)
        else (Generated(RenameDef(input.value.colNames, names, kids[0])), d1)
    else (Generated(ViewDef(op, kids)), d)
  }

  /** genViewCreateStatement: the create statement around the generated definition. */
  function GenViewCreate(e: Engine, sqlite: bool, d: DbState, name: string, op: Op, kids: seq<string>): (r: (Gen, DbState))
    requires |kids| == Arity(op)
  {
    var (g, d1) := GenViewDef(e, sqlite, d, op, kids);
    match g
    case Generated(def) => (Generated(CreateStatement(name, op, sqlite, def)), d1)
    case _ => (g, d1)
  }

  /** Generating a statement creates and drops no view. */
  lemma GenViewCreateKeepsViews(e: Engine, sqlite: bool, d: DbState, name: string, op: Op, kids: seq<string>)
    requires |kids| == Arity(op)
    ensures GenViewCreate(e, sqlite, d, name, op, kids).1.views == d.views
  {
  }

  /**
   * The part of validate after the children: drop a stale view (ignoring
   * failure), generate and run the create statement, then fetch the new
   * view's schema.
   */
  function ValidateSelf(e: Engine, sqlite: bool, d: DbState, t: Tree): (r: (Outcome, Tree, DbState))
    requires |t.kids| == Arity(t.op)
    ensures r.1.op == t.op && r.1.number == t.number && r.1.kids == t.kids
    ensures r.0 == Ok ==> r.1.status == Correct && r.1.schema.Some?
    ensures r.2.views - {Name(t)} == d.views - {Name(t)}
    ensures r.0 == Ok ==> Name(t) in r.2.views
  {
    var d1 := Drop(e, d, Name(t)).1;
    var (g, d2) := GenViewCreate(e, sqlite, d1, Name(t), t.op, KidNames(t.kids));
    GenViewCreateKeepsViews(e, sqlite, d1, Name(t), t.op, KidNames(t.kids));
    match g
    case GenMismatch => (Raised(Name(t), Message(IncorrectRenameMessage)), t, d2)
    case GenSqlError => (Raised(Name(t), SqlError), t.(status := Error), d2)
    case Generated(stmt) =>
      CreatedNameOfCreateStatement(t.number, t.op, sqlite, GenViewDef(e, sqlite, d1, t.op, KidNames(t.kids)).0.text);
      CreateAndDescribe(e, d2, t, stmt)
  }

  /** The create statement, then the schema fetch of the new view; an SQL error in either marks the node ERROR. */
  function CreateAndDescribe(e: Engine, d: DbState, t: Tree, stmt: string): (r: (Outcome, Tree, DbState))
    requires CreatedName(stmt) == Some(Name(t))
    ensures r.1.op == t.op && r.1.number == t.number && r.1.kids == t.kids
    ensures r.0 == Ok ==> r.1.status == Correct && r.1.schema.Some?
    ensures var (created, d1) := Create(e, d, stmt);
      r.0 == Ok <==> created && TableSchemaOf(e, d1, Name(t)).0.Some?
    ensures r.0 == Ok ==> r.1.schema == TableSchemaOf(e, Create(e, d, stmt).1, Name(t)).0
    ensures r.0 != Ok ==> r.0 == Raised(Name(t), SqlError) && r.1 == t.(status := Error)
    ensures r.2.views - {Name(t)} == d.views - {Name(t)}
    ensures r.0 == Ok ==> Name(t) in r.2.views
  {
    var (created, d1) := Create(e, d, stmt);
    if !created then (Raised(Name(t), SqlError), t.(status := Error), d1)
    else
      var (schema, d2) := TableSchemaOf(e, d1, Name(t));
      if schema.None? then (Raised(Name(t), SqlError), t.(status := Error), d2)
      else (Ok, t.(status := Correct, schema := schema), d2)
  }

  /**
   * validate: the children left to right, stopping at the first that
   * raises, then the node itself. It keeps the tree's shape, touches no
   * view outside the tree's own, and when it returns normally every node is
   * CORRECT with a cached schema.
   */
  function Validate(e: Engine, sqlite: bool, d: DbState, t: Tree): (r: (Outcome, Tree, DbState))
    requires WellFormed(t)
    ensures SameShape(t, r.1)
    ensures r.0 == Ok ==> AllCorrect(r.1)
    ensures r.2.views - Names(t) == d.views - Names(t)
    decreases t
  {
    var (o, kids, d1) := ValidateKids(e, sqlite, d, t.kids);
    MinusMono(d1.views, d.views, NamesOf(t.kids), Names(t));
    if o.Raised? then (o, t.(kids := kids), d1)
    else
      var r := ValidateSelf(e, sqlite, d1, t.(kids := kids));
      assert r.2.views - Names(t) == d1.views - Names(t) by {
        MinusMono(r.2.views, d1.views, {Name(t)}, Names(t));
      }
      r
  }

  /** validate once its children's outcome is known: stop if one raised, else the node's own step. */
  lemma ValidateAfterKids(e: Engine, sqlite: bool, d: DbState, t: Tree, o: Outcome, kids: seq<Tree>, d1: DbState)
    requires WellFormed(t) && ValidateKids(e, sqlite, d, t.kids) == (o, kids, d1)
    ensures o.Raised? ==> Validate(e, sqlite, d, t) == (o, t.(kids := kids), d1)
    ensures o == Ok ==> Validate(e, sqlite, d, t) == ValidateSelf(e, sqlite, d1, t.(kids := kids))
  {
  }

  function ValidateKids(e: Engine, sqlite: bool, d: DbState, ts: seq<Tree>): (r: (Outcome, seq<Tree>, DbState))
    requires forall i :: 0 <= i < |ts| ==> WellFormed(ts[i])
    ensures |r.1| == |ts| && forall i :: 0 <= i < |ts| ==> SameShape(ts[i], r.1[i])
    ensures r.0 == Ok ==> forall i :: 0 <= i < |ts| ==> AllCorrect(r.1[i])
    ensures r.2.views - NamesOf(ts) == d.views - NamesOf(ts)
    decreases ts
  {
    if ts == [] then (Ok, [], d)
    else
      var (o, t0, d1) := Validate(e, sqlite, d, ts[0]);
      MinusMono(d1.views, d.views, Names(ts[0]), NamesOf(ts));
      if o.Raised? then
        SameShapeReflOf(ts[1..]);
        ConsShape(ts, t0, ts[1..]);
        (o, [t0] + ts[1..], d1)
      else
        var (o2, rest, d2) := ValidateKids(e, sqlite, d1, ts[1..]);
        MinusMono(d2.views, d1.views, NamesOf(ts[1..]), NamesOf(ts));
        ConsShape(ts, t0, rest);
        (o2, [t0] + rest, d2)
  }

  /**
   * Validating `ts` from state `d0` has got as far as child `i`: the first
   * `i` children became `done` and led to state `d`, and what is left is
   * validating the rest from `d`.
   */
  ghost predicate KidsProgress(e: Engine, sqlite: bool, d0: DbState, ts: seq<Tree>, i: nat, done: seq<Tree>, d: DbState)
    requires i <= |ts| && forall j :: 0 <= j < |ts| ==> WellFormed(ts[j])
  {
    var r := ValidateKids(e, sqlite, d, ts[i..]);
    ValidateKids(e, sqlite, d0, ts) == (r.0, done + r.1, r.2)
  }

  /** Nothing validated yet is progress zero. */
  lemma KidsProgressStart(e: Engine, sqlite: bool, d0: DbState, ts: seq<Tree>)
    requires forall j :: 0 <= j < |ts| ==> WellFormed(ts[j])
    ensures KidsProgress(e, sqlite, d0, ts, 0, ts[..0], d0)
  {
    assert ts[0..] == ts && ts[..0] == [];
    var r := ValidateKids(e, sqlite, d0, ts);
    assert [] + r.1 == r.1;
  }

  /** Validating child `i` from where progress stands, as one unfolding of the children's validate. */
  lemma KidsProgressAt(e: Engine, sqlite: bool, d: DbState, ts: seq<Tree>, i: nat)
    requires i < |ts| && forall j :: 0 <= j < |ts| ==> WellFormed(ts[j])
    ensures var (o, t1, d1) := Validate(e, sqlite, d, ts[i]);
      ValidateKids(e, sqlite, d, ts[i..]) ==
        if o.Raised? then (o, [t1] + ts[i + 1..], d1)
        else var r := ValidateKids(e, sqlite, d1, ts[i + 1..]); (r.0, [t1] + r.1, r.2)
  {
    assert ts[i..][0] == ts[i] && ts[i..][1..] == ts[i + 1..];
  }

  /** A child that raises ends the validation of all children. */
  lemma KidsProgressRaised(e: Engine, sqlite: bool, d0: DbState, ts: seq<Tree>, i: nat, done: seq<Tree>, d: DbState,
                           o: Outcome, t1: Tree, d1: DbState)
    requires i < |ts| && forall j :: 0 <= j < |ts| ==> WellFormed(ts[j])
    requires KidsProgress(e, sqlite, d0, ts, i, done, d)
    requires (o, t1, d1) == Validate(e, sqlite, d, ts[i]) && o.Raised?
    ensures ValidateKids(e, sqlite, d0, ts) == (o, done + [t1] + ts[i + 1..], d1)
  {
    KidsProgressAt(e, sqlite, d, ts, i);
    assert done + ([t1] + ts[i + 1..]) == done + [t1] + ts[i + 1..];
  }

  /** A child that validates moves progress on by one. */
  lemma KidsProgressNext(e: Engine, sqlite: bool, d0: DbState, ts: seq<Tree>, i: nat, done: seq<Tree>, d: DbState,
                         t1: Tree, d1: DbState)
    requires i < |ts| && forall j :: 0 <= j < |ts| ==> WellFormed(ts[j])
    requires KidsProgress(e, sqlite, d0, ts, i, done, d)
    requires (Ok, t1, d1) == Validate(e, sqlite, d, ts[i])
    ensures KidsProgress(e, sqlite, d0, ts, i + 1, done + [t1], d1)
  {
    KidsProgressAt(e, sqlite, d, ts, i);
    var r := ValidateKids(e, sqlite, d1, ts[i + 1..]);
    assert done + ([t1] + r.1) == done + [t1] + r.1;
  }

  /** Progress past the last child is the result of validating all children. */
  lemma KidsProgressEnd(e: Engine, sqlite: bool, d0: DbState, ts: seq<Tree>, done: seq<Tree>, d: DbState)
    requires forall j :: 0 <= j < |ts| ==> WellFormed(ts[j])
    requires |done| == |ts| && KidsProgress(e, sqlite, d0, ts, |ts|, done[..|ts|], d)
    ensures ValidateKids(e, sqlite, d0, ts) == (Ok, done, d)
  {
    assert ts[|ts|..] == [] && done[..|ts|] == done;
    assert done + [] == done;
  }

  /** Consing a result for the first tree onto results for the rest keeps the pointwise shape and correctness facts. */
  lemma ConsShape(ts: seq<Tree>, t0: Tree, rest: seq<Tree>)
    requires ts != [] && SameShape(ts[0], t0)
    requires |rest| == |ts| - 1 && forall i :: 0 <= i < |rest| ==> SameShape(ts[1..][i], rest[i])
    ensures |[t0] + rest| == |ts| && forall i :: 0 <= i < |ts| ==> SameShape(ts[i], ([t0] + rest)[i])
    ensures AllCorrect(t0) && (forall i :: 0 <= i < |rest| ==> AllCorrect(rest[i])) ==>
      forall i :: 0 <= i < |ts| ==> AllCorrect(([t0] + rest)[i])
  {
    forall i | 1 <= i < |ts|
      ensures SameShape(ts[i], ([t0] + rest)[i])
    {
      assert ts[i] == ts[1..][i - 1];
    }
  }

  lemma SameShapeReflOf(ts: seq<Tree>)
    ensures forall i :: 0 <= i < |ts| ==> SameShape(ts[i], ts[i])
  {
    forall i | 0 <= i < |ts|
      ensures SameShape(ts[i], ts[i])
    {
      SameShapeRefl(ts[i]);
    }
  }

  lemma {:induction false} SameShapeRefl(t: Tree)
    ensures SameShape(t, t)
    decreases t
  {
    forall i | 0 <= i < |t.kids|
      ensures SameShape(t.kids[i], t.kids[i])
    {
      SameShapeRefl(t.kids[i]);
    }
  }

  /** Agreeing outside a set of keys means agreeing outside any larger set. */
  lemma MinusMono(a: Views, b: Views, small: set<string>, large: set<string>)
    requires small <= large
    requires a - small == b - small
    ensures a - large == b - large
  {
    forall k | k !in large
      ensures (k in a <==> k in b) && (k in a ==> a[k] == b[k])
    {
      assert k in a <==> k in a - small;
      assert k in b <==> k in b - small;
      if k in a {
        assert (a - small)[k] == a[k];
        assert (b - small)[k] == b[k];
      }
    }
  }

  /**
   * A validate that returns normally leaves a view for every node of the
   * tree, provided no two nodes share a name (a later node's drop of its own
   * name then never removes an earlier node's view).
   */
  lemma {:induction false} ValidateOkViewsExist(e: Engine, sqlite: bool, d: DbState, t: Tree)
    requires WellFormed(t) && UniqueNames(t)
    ensures Validate(e, sqlite, d, t).0 == Ok ==> Names(t) <= Validate(e, sqlite, d, t).2.views.Keys
    decreases t
  {
    var (o, kids, d1) := ValidateKids(e, sqlite, d, t.kids);
    if o == Ok {
      ValidateKidsOkViewsExist(e, sqlite, d, t.kids);
      var r := ValidateSelf(e, sqlite, d1, t.(kids := kids));
      forall v | v in NamesOf(t.kids)
        ensures v in r.2.views
      {
        assert v in d1.views - {Name(t)};
      }
    }
  }

  lemma {:induction false} ValidateKidsOkViewsExist(e: Engine, sqlite: bool, d: DbState, ts: seq<Tree>)
    requires forall i :: 0 <= i < |ts| ==> WellFormed(ts[i])
    requires UniqueNamesOf(ts)
    ensures ValidateKids(e, sqlite, d, ts).0 == Ok ==> NamesOf(ts) <= ValidateKids(e, sqlite, d, ts).2.views.Keys
    decreases ts
  {
    if ts != [] {
      var (o, t0, d1) := Validate(e, sqlite, d, ts[0]);
      if o == Ok {
        ValidateOkViewsExist(e, sqlite, d, ts[0]);
        ValidateKidsOkViewsExist(e, sqlite, d1, ts[1..]);
        var d2 := ValidateKids(e, sqlite, d1, ts[1..]).2;
        forall v | v in Names(ts[0])
          ensures v in d2.views
        {
          assert v in d1.views - NamesOf(ts[1..]);
        }
      }
    }
  }

  /**
   * Children that come after the one that raised are left exactly as they
   * were, and every child before it was validated to CORRECT; the node that
   * raised lies inside child i.
   */
  predicate StoppedAt(ts: seq<Tree>, r: (Outcome, seq<Tree>, DbState), i: nat)
    requires |r.1| == |ts|
  {
    && i < |ts|
    && r.0.Raised?
    && r.0.errorNode in Names(ts[i])
    && r.1[i + 1..] == ts[i + 1..]
    && forall j :: 0 <= j < i ==> AllCorrect(r.1[j])
  }

  /**
   * A validate that raises stops at the first failure: either some child
   * raised, and the node itself is untouched and the children after the
   * failing one were never validated, or all children were validated and
   * the node itself failed.
   */
  lemma {:induction false} ValidateRaised(e: Engine, sqlite: bool, d: DbState, t: Tree)
    requires WellFormed(t)
    ensures var r := Validate(e, sqlite, d, t);
      r.0.Raised? ==>
        && r.0.errorNode in Names(t)
        && ((r.1.status == t.status && r.1.schema == t.schema
             && exists i :: StoppedAt(t.kids, ValidateKids(e, sqlite, d, t.kids), i))
            || (r.0.errorNode == Name(t) && forall j :: 0 <= j < |t.kids| ==> AllCorrect(r.1.kids[j])))
  {
    var rk := ValidateKids(e, sqlite, d, t.kids);
    if rk.0.Raised? {
      var i := ValidateKidsRaised(e, sqlite, d, t.kids);
      assert rk.0.errorNode in NamesOf(t.kids) by { NameInNamesOf(t.kids, i, rk.0.errorNode); }
    }
  }

  lemma {:induction false} ValidateKidsRaised(e: Engine, sqlite: bool, d: DbState, ts: seq<Tree>) returns (i: nat)
    requires forall k :: 0 <= k < |ts| ==> WellFormed(ts[k])
    requires ValidateKids(e, sqlite, d, ts).0.Raised?
    ensures StoppedAt(ts, ValidateKids(e, sqlite, d, ts), i)
    decreases ts
  {
    var (o, t0, d1) := Validate(e, sqlite, d, ts[0]);
    if o.Raised? {
      ValidateRaisedNames(e, sqlite, d, ts[0]);
      ValidateKidsRaisedFirst(e, sqlite, d, ts);
      i := 0;
    } else {
      var k := ValidateKidsRaised(e, sqlite, d1, ts[1..]);
      ValidateKidsRaisedLater(e, sqlite, d, ts, k);
      i := k + 1;
    }
  }

  /** The first child raised: it is where the loop stopped. */
  lemma ValidateKidsRaisedFirst(e: Engine, sqlite: bool, d: DbState, ts: seq<Tree>)
    requires ts != [] && forall k :: 0 <= k < |ts| ==> WellFormed(ts[k])
    requires Validate(e, sqlite, d, ts[0]).0.Raised?
    requires Validate(e, sqlite, d, ts[0]).0.errorNode in Names(ts[0])
    ensures StoppedAt(ts, ValidateKids(e, sqlite, d, ts), 0)
  {
    var (o, t0, d1) := Validate(e, sqlite, d, ts[0]);
    var r := ValidateKids(e, sqlite, d, ts);
    assert r == (o, [t0] + ts[1..], d1);
    assert r.1[1..] == ts[1..];
  }

  /** The first child validated and the rest stopped at `k`: the loop stopped at `k + 1`. */
  lemma ValidateKidsRaisedLater(e: Engine, sqlite: bool, d: DbState, ts: seq<Tree>, k: nat)
    requires ts != [] && forall k :: 0 <= k < |ts| ==> WellFormed(ts[k])
    requires Validate(e, sqlite, d, ts[0]).0 == Ok
    requires var d1 := Validate(e, sqlite, d, ts[0]).2; StoppedAt(ts[1..], ValidateKids(e, sqlite, d1, ts[1..]), k)
    ensures StoppedAt(ts, ValidateKids(e, sqlite, d, ts), k + 1)
  {
    var (o, t0, d1) := Validate(e, sqlite, d, ts[0]);
    var rest := ValidateKids(e, sqlite, d1, ts[1..]);
    assert ValidateKids(e, sqlite, d, ts) == (rest.0, [t0] + rest.1, rest.2);
    StoppedAtCons(ts, t0, rest, k);
  }

  lemma StoppedAtCons(ts: seq<Tree>, t0: Tree, rest: (Outcome, seq<Tree>, DbState), k: nat)
    requires ts != [] && AllCorrect(t0)
    requires |rest.1| == |ts| - 1 && StoppedAt(ts[1..], rest, k)
    ensures StoppedAt(ts, (rest.0, [t0] + rest.1, rest.2), k + 1)
  {
    var r1 := [t0] + rest.1;
    assert r1[k + 2..] == rest.1[k + 1..];
    assert ts[k + 2..] == ts[1..][k + 1..];
    assert ts[k + 1] == ts[1..][k];
    forall j | 0 <= j < k + 1
      ensures AllCorrect(r1[j])
    {
      if j > 0 {
        assert r1[j] == rest.1[j - 1];
      }
    }
  }

  /** The node a validate names as failing belongs to the validated tree. */
  lemma {:induction false} ValidateRaisedNames(e: Engine, sqlite: bool, d: DbState, t: Tree)
    requires WellFormed(t)
    ensures Validate(e, sqlite, d, t).0.Raised? ==> Validate(e, sqlite, d, t).0.errorNode in Names(t)
    decreases t
  {
    var rk := ValidateKids(e, sqlite, d, t.kids);
    if rk.0.Raised? {
      var i := ValidateKidsRaised(e, sqlite, d, t.kids);
      NameInNamesOf(t.kids, i, rk.0.errorNode);
    }
  }

  lemma {:induction false} NameInNamesOf(ts: seq<Tree>, i: nat, v: string)
    requires i < |ts| && v in Names(ts[i])
    ensures v in NamesOf(ts)
    decreases ts
  {
    if i > 0 {
      NameInNamesOf(ts[1..], i - 1, v);
    }
  }

  /**
   * How the node's own step of validate can fail. RENAME's column-count
   * mismatch raises the message, leaves the node as it was and creates no
   * view; an SQL error marks the node ERROR. Either way the exception names
   * this node.
   */
  lemma ValidateSelfRaised(e: Engine, sqlite: bool, d: DbState, t: Tree)
    requires |t.kids| == Arity(t.op)
    ensures var r := ValidateSelf(e, sqlite, d, t);
      r.0.Raised? ==>
        && r.0.errorNode == Name(t)
        && (r.0.cause == SqlError ==> r.1 == t.(status := Error))
        && (r.0.cause.Message? ==>
              && t.op.Rename? && sqlite
              && RenameMismatch(e, Drop(e, d, Name(t)).1, t)
              && r.0.cause.text == IncorrectRenameMessage
              && r.1 == t
              && r.2.views == Drop(e, d, Name(t)).1.views)
  {
    var d1 := Drop(e, d, Name(t)).1;
    GenViewCreateKeepsViews(e, sqlite, d1, Name(t), t.op, KidNames(t.kids));
  }

  /**
   * RENAME's column-count check on SQLite: the child's view has a schema,
   * and it has a different number of columns from the new names listed.
   */
  predicate RenameMismatch(e: Engine, d: DbState, t: Tree)
    requires t.op.Rename? && |t.kids| == 1
  {
    var input := TableSchemaOf(e, d, Name(t.kids[0])).0;
    input.Some? && |input.value.colNames| != |ParseColumnNames(t.op.columns)|
  }

  /**
   * On SQLite a RENAME whose child has a different number of columns from
   * the new names raises the message and leaves the node as it was.
   */
  lemma ValidateSelfMismatch(e: Engine, d: DbState, t: Tree)
    requires t.op.Rename? && |t.kids| == 1
    requires RenameMismatch(e, Drop(e, d, Name(t)).1, t)
    ensures var r := ValidateSelf(e, true, d, t);
      r.0 == Raised(Name(t), Message(IncorrectRenameMessage)) && r.1 == t
  {
  }

  /**
   * The node's own step returns normally exactly when the statement could be
   * generated, the database accepted it and the new view's schema could be
   * fetched; the node then caches that schema.
   */
  lemma ValidateSelfOk(e: Engine, sqlite: bool, d: DbState, t: Tree)
    requires |t.kids| == Arity(t.op)
    ensures var d1 := Drop(e, d, Name(t)).1;
      var g := GenViewCreate(e, sqlite, d1, Name(t), t.op, KidNames(t.kids));
      var r := ValidateSelf(e, sqlite, d, t);
      && (r.0 == Ok <==>
            && g.0.Generated?
            && Create(e, g.1, g.0.text).0
            && TableSchemaOf(e, Create(e, g.1, g.0.text).1, Name(t)).0.Some?)
      && (r.0 == Ok ==> r.1.schema == TableSchemaOf(e, Create(e, g.1, g.0.text).1, Name(t)).0)
  {
    var d1 := Drop(e, d, Name(t)).1;
    var g := GenViewCreate(e, sqlite, d1, Name(t), t.op, KidNames(t.kids));
    if g.0.Generated? {
      CreatedNameOfCreateStatement(t.number, t.op, sqlite, GenViewDef(e, sqlite, d1, t.op, KidNames(t.kids)).0.text);
      assert CreatedName(g.0.text) == Some(Name(t));
    }
  }

  /**
   * When the create statement succeeds but fetching the new view's schema
   * fails, the node is marked ERROR and its view stays in the database.
   */
  lemma ValidateSelfLeavesView(e: Engine, sqlite: bool, d: DbState, t: Tree)
    requires |t.kids| == Arity(t.op)
    requires var d1 := Drop(e, d, Name(t)).1;
      var g := GenViewCreate(e, sqlite, d1, Name(t), t.op, KidNames(t.kids));
      && g.0.Generated?
      && Create(e, g.1, g.0.text).0
      && TableSchemaOf(e, Create(e, g.1, g.0.text).1, Name(t)).0.None?
    ensures var r := ValidateSelf(e, sqlite, d, t);
      r.0 == Raised(Name(t), SqlError) && r.1.status == Error && Name(t) in r.2.views
  {
    var d1 := Drop(e, d, Name(t)).1;
    var g := GenViewCreate(e, sqlite, d1, Name(t), t.op, KidNames(t.kids));
    CreatedNameOfCreateStatement(t.number, t.op, sqlite, GenViewDef(e, sqlite, d1, t.op, KidNames(t.kids)).0.text);
    assert CreatedName(g.0.text) == Some(Name(t));
  }

  /** The views clean drops: those of the CORRECT nodes. */
  function CorrectNames(t: Tree): set<string>
    decreases t
  {
    (if t.status == Correct then {Name(t)} else {}) + CorrectNamesOf(t.kids)
  }

  function CorrectNamesOf(ts: seq<Tree>): set<string>
    decreases ts
  {
    if ts == [] then {} else CorrectNames(ts[0]) + CorrectNamesOf(ts[1..])
  }

  /** The statements clean sends: a DROP VIEW for each CORRECT node, node before children, left to right. */
  function Drops(t: Tree): seq<string>
    decreases t
  {
    (if t.status == Correct then ["DROP VIEW " + Name(t)] else []) + DropsOf(t.kids)
  }

  function DropsOf(ts: seq<Tree>): seq<string>
    decreases ts
  {
    if ts == [] then [] else Drops(ts[0]) + DropsOf(ts[1..])
  }

  /**
   * clean: a CORRECT node drops its view (a failure aborts the whole clean
   * with the node still CORRECT) and becomes UNCHECKED, an ERROR node becomes
   * UNCHECKED without a drop, an UNCHECKED node is left alone; then the
   * children, left to right, stopping at the first failure. After a clean
   * that succeeds every node is UNCHECKED.
   */
  function Clean(e: Engine, d: DbState, t: Tree): (r: (bool, Tree, DbState))
    decreases t
  {
    if t.status == Correct then
      var (dropped, d1) := Drop(e, d, Name(t));
      if !dropped then (false, t, d1)
      else
        var (ok, kids, d2) := CleanKids(e, d1, t.kids);
        (ok, t.(status := Unchecked, kids := kids), d2)
    else
      var (ok, kids, d1) := CleanKids(e, d, t.kids);
      (ok, t.(status := Unchecked, kids := kids), d1)
  }

  function CleanKids(e: Engine, d: DbState, ts: seq<Tree>): (r: (bool, seq<Tree>, DbState))
    ensures |r.1| == |ts|
    decreases ts
  {
    if ts == [] then (true, [], d)
    else
      var (ok, t0, d1) := Clean(e, d, ts[0]);
      if !ok then (false, [t0] + ts[1..], d1)
      else
        var (ok2, rest, d2) := CleanKids(e, d1, ts[1..]);
        (ok2, [t0] + rest, d2)
  }

  /** clean keeps the shape of the tree, and one that succeeds leaves every node UNCHECKED. */
  lemma {:induction false} CleanShape(e: Engine, d: DbState, t: Tree)
    ensures SameShape(t, Clean(e, d, t).1)
    ensures Clean(e, d, t).0 ==> AllUnchecked(Clean(e, d, t).1)
    decreases t
  {
    if t.status == Correct && !Drop(e, d, Name(t)).0 {
      SameShapeRefl(t);
    } else {
      var d1 := if t.status == Correct then Drop(e, d, Name(t)).1 else d;
      CleanKidsShape(e, d1, t.kids);
    }
  }

  lemma {:induction false} CleanKidsShape(e: Engine, d: DbState, ts: seq<Tree>)
    ensures var r := CleanKids(e, d, ts);
      && (forall i :: 0 <= i < |ts| ==> SameShape(ts[i], r.1[i]))
      && (r.0 ==> forall i :: 0 <= i < |ts| ==> AllUnchecked(r.1[i]))
    decreases ts
  {
    if ts != [] {
      var (ok, t0, d1) := Clean(e, d, ts[0]);
      CleanShape(e, d, ts[0]);
      if !ok {
        SameShapeReflOf(ts[1..]);
        ConsShape(ts, t0, ts[1..]);
      } else {
        var (ok2, rest, d2) := CleanKids(e, d1, ts[1..]);
        CleanKidsShape(e, d1, ts[1..]);
        ConsShape(ts, t0, rest);
        ConsUnchecked(t0, rest);
      }
    }
  }

  lemma ConsUnchecked(t0: Tree, rest: seq<Tree>)
    ensures AllUnchecked(t0) && (forall i :: 0 <= i < |rest| ==> AllUnchecked(rest[i])) ==>
      forall i :: 0 <= i < |rest| + 1 ==> AllUnchecked(([t0] + rest)[i])
  {
  }

  /** clean once the node's own step is done: the children from state `d1` on, the node now UNCHECKED. */
  lemma CleanAfterSelf(e: Engine, d: DbState, t: Tree, d1: DbState, ok: bool, kids: seq<Tree>, d2: DbState)
    requires t.status == Correct ==> Drop(e, d, Name(t)) == (true, d1)
    requires t.status != Correct ==> d1 == d
    requires CleanKids(e, d1, t.kids) == (ok, kids, d2)
    ensures Clean(e, d, t) == (ok, t.(status := Unchecked, kids := kids), d2)
  {
  }

  /**
   * Cleaning `ts` from state `d0` has got as far as child `i`: the first `i`
   * children became `done` and led to state `d`, and what is left is cleaning
   * the rest from `d`.
   */
  ghost predicate CleanProgress(e: Engine, d0: DbState, ts: seq<Tree>, i: nat, done: seq<Tree>, d: DbState)
    requires i <= |ts|
  {
    var r := CleanKids(e, d, ts[i..]);
    CleanKids(e, d0, ts) == (r.0, done + r.1, r.2)
  }

  lemma CleanProgressStart(e: Engine, d0: DbState, ts: seq<Tree>)
    ensures CleanProgress(e, d0, ts, 0, ts[..0], d0)
  {
    assert ts[0..] == ts && ts[..0] == [];
    var r := CleanKids(e, d0, ts);
    assert [] + r.1 == r.1;
  }

  /** Cleaning child `i` from where progress stands, as one unfolding of the children's clean. */
  lemma CleanProgressAt(e: Engine, d: DbState, ts: seq<Tree>, i: nat)
    requires i < |ts|
    ensures var (ok, t1, d1) := Clean(e, d, ts[i]);
      CleanKids(e, d, ts[i..]) ==
        if !ok then (false, [t1] + ts[i + 1..], d1)
        else var r := CleanKids(e, d1, ts[i + 1..]); (r.0, [t1] + r.1, r.2)
  {
    assert ts[i..][0] == ts[i] && ts[i..][1..] == ts[i + 1..];
  }

  /** A child whose clean fails ends the cleaning of all children. */
  lemma CleanProgressFailed(e: Engine, d0: DbState, ts: seq<Tree>, i: nat, done: seq<Tree>, d: DbState, t1: Tree, d1: DbState)
    requires i < |ts| && CleanProgress(e, d0, ts, i, done, d)
    requires (false, t1, d1) == Clean(e, d, ts[i])
    ensures CleanKids(e, d0, ts) == (false, done + [t1] + ts[i + 1..], d1)
  {
    CleanProgressAt(e, d, ts, i);
    assert done + ([t1] + ts[i + 1..]) == done + [t1] + ts[i + 1..];
  }

  /** A child cleaned moves progress on by one. */
  lemma CleanProgressNext(e: Engine, d0: DbState, ts: seq<Tree>, i: nat, done: seq<Tree>, d: DbState, t1: Tree, d1: DbState)
    requires i < |ts| && CleanProgress(e, d0, ts, i, done, d)
    requires (true, t1, d1) == Clean(e, d, ts[i])
    ensures CleanProgress(e, d0, ts, i + 1, done + [t1], d1)
  {
    CleanProgressAt(e, d, ts, i);
    var r := CleanKids(e, d1, ts[i + 1..]);
    assert done + ([t1] + r.1) == done + [t1] + r.1;
  }

  /** Progress past the last child is the result of cleaning all children. */
  lemma CleanProgressEnd(e: Engine, d0: DbState, ts: seq<Tree>, done: seq<Tree>, d: DbState)
    requires |done| == |ts| && CleanProgress(e, d0, ts, |ts|, done[..|ts|], d)
    ensures CleanKids(e, d0, ts) == (true, done, d)
  {
    assert ts[|ts|..] == [] && done[..|ts|] == done;
    assert done + [] == done;
  }

  /**
   * clean sends nothing but DROP VIEW statements for CORRECT nodes, node
   * before children and left to right: a prefix of them, all of them when it
   * succeeds.
   */
  lemma {:induction false} CleanIssued(e: Engine, d: DbState, t: Tree)
    ensures var r := Clean(e, d, t);
      && d.issued <= r.2.issued
      && r.2.issued[|d.issued|..] <= Drops(t)
      && (r.0 ==> r.2.issued == d.issued + Drops(t))
    decreases t
  {
    var r := Clean(e, d, t);
    if t.status == Correct {
      var (dropped, d1) := Drop(e, d, Name(t));
      if dropped {
        CleanKidsIssued(e, d1, t.kids);
        IssuedThen(d.issued, d1.issued, r.2.issued, ["DROP VIEW " + Name(t)], DropsOf(t.kids));
      } else {
        IssuedThen(d.issued, d1.issued, d1.issued, ["DROP VIEW " + Name(t)], DropsOf(t.kids));
      }
    } else {
      CleanKidsIssued(e, d, t.kids);
      assert Drops(t) == DropsOf(t.kids);
    }
  }

  lemma {:induction false} CleanKidsIssued(e: Engine, d: DbState, ts: seq<Tree>)
    ensures var r := CleanKids(e, d, ts);
      && d.issued <= r.2.issued
      && r.2.issued[|d.issued|..] <= DropsOf(ts)
      && (r.0 ==> r.2.issued == d.issued + DropsOf(ts))
    decreases ts
  {
    if ts != [] {
      var r := CleanKids(e, d, ts);
      var (ok, t0, d1) := Clean(e, d, ts[0]);
      CleanIssued(e, d, ts[0]);
      if !ok {
        IssuedPrefix(d.issued, d1.issued, Drops(ts[0]), DropsOf(ts[1..]));
      } else {
        CleanKidsIssued(e, d1, ts[1..]);
        IssuedThen(d.issued, d1.issued, r.2.issued, Drops(ts[0]), DropsOf(ts[1..]));
      }
    }
  }

  /** Sending all of `head` and then a prefix of `tail` is sending a prefix of both. */
  lemma IssuedThen(base: seq<string>, mid: seq<string>, fin: seq<string>, head: seq<string>, tail: seq<string>)
    requires mid == base + head && mid <= fin && fin[|mid|..] <= tail
    ensures base <= fin && fin[|base|..] <= head + tail
    ensures fin == mid + tail ==> fin == base + (head + tail)
  {
    assert fin == mid + fin[|mid|..];
    assert fin[|base|..] == head + fin[|mid|..];
    assert (head + tail)[..|head| + |fin[|mid|..]|] == head + tail[..|fin[|mid|..]|];
  }

  /** Sending a prefix of `head` is sending a prefix of `head` and anything after it. */
  lemma IssuedPrefix(base: seq<string>, mid: seq<string>, head: seq<string>, tail: seq<string>)
    requires |base| <= |mid| && mid[|base|..] <= head
    ensures mid[|base|..] <= head + tail
  {
    assert (head + tail)[..|head|] == head;
  }

  /** A clean that succeeds has dropped exactly the views of the CORRECT nodes and no other. */
  lemma {:induction false} CleanViews(e: Engine, d: DbState, t: Tree)
    ensures Clean(e, d, t).0 ==> Clean(e, d, t).2.views == d.views - CorrectNames(t)
    decreases t
  {
    var r := Clean(e, d, t);
    if r.0 {
      if t.status == Correct {
        var d1 := Drop(e, d, Name(t)).1;
        CleanKidsViews(e, d1, t.kids);
        MinusBoth(d.views, {Name(t)}, CorrectNamesOf(t.kids));
      } else {
        CleanKidsViews(e, d, t.kids);
      }
    }
  }

  lemma {:induction false} CleanKidsViews(e: Engine, d: DbState, ts: seq<Tree>)
    ensures CleanKids(e, d, ts).0 ==> CleanKids(e, d, ts).2.views == d.views - CorrectNamesOf(ts)
    decreases ts
  {
    if ts != [] && CleanKids(e, d, ts).0 {
      var (ok, t0, d1) := Clean(e, d, ts[0]);
      CleanViews(e, d, ts[0]);
      CleanKidsViews(e, d1, ts[1..]);
      MinusBoth(d.views, CorrectNames(ts[0]), CorrectNamesOf(ts[1..]));
    }
  }

  lemma MinusBoth(m: Views, a: set<string>, b: set<string>)
    ensures m - a - b == m - (a + b)
  {
    forall k | k in m - (a + b)
      ensures k in m - a - b
    {
      assert k in m - a;
    }
  }

  /** clean of a tree whose nodes are all UNCHECKED changes nothing and sends nothing. */
  lemma {:induction false} CleanUnchecked(e: Engine, d: DbState, t: Tree)
    requires AllUnchecked(t)
    ensures Clean(e, d, t) == (true, t, d)
    decreases t
  {
    CleanKidsUnchecked(e, d, t.kids);
  }

  lemma {:induction false} CleanKidsUnchecked(e: Engine, d: DbState, ts: seq<Tree>)
    requires forall i :: 0 <= i < |ts| ==> AllUnchecked(ts[i])
    ensures CleanKids(e, d, ts) == (true, ts, d)
    decreases ts
  {
    if ts != [] {
      CleanUnchecked(e, d, ts[0]);
      CleanKidsUnchecked(e, d, ts[1..]);
      assert [ts[0]] + ts[1..] == ts;
    }
  }

  /** A second clean after one that succeeded issues no drop and changes nothing. */
  lemma CleanIdempotent(e: Engine, d: DbState, t: Tree)
    ensures var r := Clean(e, d, t);
      r.0 ==> Clean(e, r.2, r.1) == (true, r.1, r.2)
  {
    var r := Clean(e, d, t);
    if r.0 {
      CleanShape(e, d, t);
      CleanUnchecked(e, r.2, r.1);
    }
  }

  /** The views clean may drop are views of the tree. */
  lemma {:induction false} CorrectNamesWithin(t: Tree)
    ensures CorrectNames(t) <= Names(t)
    decreases t
  {
    CorrectNamesOfWithin(t.kids);
  }

  lemma {:induction false} CorrectNamesOfWithin(ts: seq<Tree>)
    ensures CorrectNamesOf(ts) <= NamesOf(ts)
    decreases ts
  {
    if ts != [] {
      CorrectNamesWithin(ts[0]);
      CorrectNamesOfWithin(ts[1..]);
    }
  }

  /** In a tree whose nodes are all CORRECT, clean drops every view of the tree. */
  lemma {:induction false} AllCorrectNames(t: Tree)
    requires AllCorrect(t)
    ensures CorrectNames(t) == Names(t)
    decreases t
  {
    AllCorrectNamesOf(t.kids);
  }

  lemma {:induction false} AllCorrectNamesOf(ts: seq<Tree>)
    requires forall i :: 0 <= i < |ts| ==> AllCorrect(ts[i])
    ensures CorrectNamesOf(ts) == NamesOf(ts)
    decreases ts
  {
    if ts != [] {
      AllCorrectNames(ts[0]);
      AllCorrectNamesOf(ts[1..]);
    }
  }

  /** Trees of the same shape have the same views. */
  lemma {:induction false} SameShapeNames(a: Tree, b: Tree)
    requires SameShape(a, b)
    ensures Names(a) == Names(b)
    decreases a
  {
    SameShapeNamesOf(a.kids, b.kids);
  }

  lemma {:induction false} SameShapeNamesOf(ts: seq<Tree>, us: seq<Tree>)
    requires |ts| == |us| && forall i :: 0 <= i < |ts| ==> SameShape(ts[i], us[i])
    ensures NamesOf(ts) == NamesOf(us)
    decreases ts
  {
    if ts != [] {
      SameShapeNames(ts[0], us[0]);
      SameShapeNamesOf(ts[1..], us[1..]);
    }
  }

  /**
   * Whether or not it succeeds, clean leaves every view other than those of
   * the tree's CORRECT nodes as it was.
   */
  lemma {:induction false} CleanConfined(e: Engine, d: DbState, t: Tree)
    ensures Clean(e, d, t).2.views - CorrectNames(t) == d.views - CorrectNames(t)
    decreases t
  {
    var r := Clean(e, d, t);
    var below := CorrectNamesOf(t.kids);
    if t.status == Correct {
      var (dropped, d1) := Drop(e, d, Name(t));
      if dropped {
        CleanKidsConfined(e, d1, t.kids);
        MinusMono(r.2.views, d1.views, below, CorrectNames(t));
        MinusBoth(d.views, {Name(t)}, {Name(t)});
        assert {Name(t)} + {Name(t)} == {Name(t)};
        MinusMono(d1.views, d.views, {Name(t)}, CorrectNames(t));
      }
    } else {
      CleanKidsConfined(e, d, t.kids);
      assert CorrectNames(t) == below;
    }
  }

  lemma {:induction false} CleanKidsConfined(e: Engine, d: DbState, ts: seq<Tree>)
    ensures CleanKids(e, d, ts).2.views - CorrectNamesOf(ts) == d.views - CorrectNamesOf(ts)
    decreases ts
  {
    if ts != [] {
      var r := CleanKids(e, d, ts);
      var (ok, t0, d1) := Clean(e, d, ts[0]);
      CleanConfined(e, d, ts[0]);
      MinusMono(d1.views, d.views, CorrectNames(ts[0]), CorrectNamesOf(ts));
      if ok {
        CleanKidsConfined(e, d1, ts[1..]);
        MinusMono(r.2.views, d1.views, CorrectNamesOf(ts[1..]), CorrectNamesOf(ts));
      }
    }
  }

  /**
   * clean does not drop the view of a node marked ERROR: when the view was
   * created before the node failed, it outlives the clean.
   */
  lemma CleanKeepsErrorView(e: Engine, d: DbState, t: Tree)
    requires t.status == Error && Name(t) !in NamesOf(t.kids) && Name(t) in d.views
    ensures Name(t) in Clean(e, d, t).2.views
  {
    CleanConfined(e, d, t);
    CorrectNamesOfWithin(t.kids);
    assert Name(t) in d.views - CorrectNames(t);
  }
}
