/**
 * The expression branch of the interpreter's evaluate: reset the view
 * counter, build the node tree, validate it, execute it when validation
 * succeeded, and clean up its views whatever happened before.
 */
module RA {
  import opened Wrappers
  import opened Database
  import opened Lifecycle
  import opened Construction
  import opened ViewNames
  import Nodes

  /**
   * What evaluate reports: the outcome of validate (the ValidateException
   * it prints, if any), whether the query ran (None when validate raised, so
   * that execute was skipped) and whether clean completed.
   */
  datatype Report = Report(validation: Outcome, query: Option<bool>, cleaned: bool)

  /** The tree evaluate builds for `x`: the counter was just reset. */
  function Fresh(x: Expr): (t: Tree)
    requires WellFormedExpr(x)
    ensures WellFormed(t) && UniqueNames(t) && AllUnchecked(t)
    ensures Names(t) == Numbered(0, Size(x))
  {
    BuiltWellFormed(x, 0);
    BuiltNames(x, 0);
    BuiltUnchecked(x, 0);
    BuiltNamesNumbered(x, 0);
    Built(x, 0)
  }

  /**
   * validate, execute and clean on a built tree: the query runs only when
   * validate returned normally, and clean runs in every case.
   */
  function Run(e: Engine, sqlite: bool, d: DbState, t: Tree): (Report, DbState)
    requires WellFormed(t)
  {
    var (o, t1, d1) := Validate(e, sqlite, d, t);
    var (q, d2) :=
      if o == Ok then
        var (ran, d2) := Query(e, d1, "SELECT * FROM " + Name(t1));
        (Some(ran), d2)
      else (None, d1);
    var (cleaned, _, d3) := Clean(e, d2, t1);
    (Report(o, q, cleaned), d3)
  }

  /** evaluate on an expression, from database state `d`. */
  function Evaluation(e: Engine, sqlite: bool, d: DbState, x: Expr): (Report, DbState)
    requires WellFormedExpr(x)
  {
    Run(e, sqlite, d, Fresh(x))
  }

  /**
   * evaluate: the nodes are built with the counter reset, then validated,
   * executed and cleaned. An expression whose operators do not have the
   * right number of operands cannot be built (the constructor raises
   * RecognitionException): no tree exists, so nothing is validated or
   * cleaned and the database is not touched.
   */
  method Evaluate(db: DB, gen: ViewNameGenerator, x: Expr) returns (report: Option<Report>)
    modifies db, gen
    ensures WellFormedExpr(x) ==>
      report.Some? && (report.value, db.State()) == Evaluation(db.engine, db.IsSQLite(), old(db.State()), x)
    ensures WellFormedExpr(x) ==> gen.count == Size(x)
    ensures !WellFormedExpr(x) ==> report == None && db.State() == old(db.State())
  {
    gen.Reset();
    if !WellFormedExpr(x) {
      return None;
    }
    var rax := Nodes.Build(x, gen);
    var r := RunNode(db, rax, Fresh(x));
    report := Some(r);
  }

  /** The part of evaluate after construction, on the root `rax` of a tree representing `t`. */
  method RunNode(db: DB, rax: Nodes.RAXNode, ghost t: Tree) returns (report: Report)
    requires rax.Valid() && rax.Abs() == t
    modifies rax.Repr, db
    ensures (report, db.State()) == Run(db.engine, db.IsSQLite(), old(db.State()), t)
  {
    ghost var d0 := db.State();
    var outcome := rax.Validate(db);
    ghost var t1, d1 := rax.Abs(), db.State();
    var query := None;
    if outcome == Ok {
      var ran := rax.Execute(db);
      query := Some(ran);
    }
    ghost var d2 := db.State();
    var cleaned := rax.Clean(db);
    RunOf(db.engine, db.IsSQLite(), d0, t, outcome, t1, d1, query, d2, cleaned, rax.Abs(), db.State());
    report := Report(outcome, query, cleaned);
  }

  /** Run, step by step: what each step returned determines the report and the final state. */
  lemma RunOf(e: Engine, sqlite: bool, d: DbState, t: Tree, o: Outcome, t1: Tree, d1: DbState,
              q: Option<bool>, d2: DbState, c: bool, t3: Tree, d3: DbState)
    requires WellFormed(t)
    requires Validate(e, sqlite, d, t) == (o, t1, d1)
    requires o == Ok ==> q.Some? && (q.value, d2) == Query(e, d1, "SELECT * FROM " + Name(t1))
    requires o != Ok ==> q == None && d2 == d1
    requires Clean(e, d2, t1) == (c, t3, d3)
    ensures Run(e, sqlite, d, t) == (Report(o, q, c), d3)
  {
  }

  /**
   * Whatever the outcome, an evaluation touches no view but the temporary
   * views RA_TMP_VIEW_1 .. RA_TMP_VIEW_n of its n nodes.
   */
  lemma EvaluationConfined(e: Engine, sqlite: bool, d: DbState, x: Expr)
    requires WellFormedExpr(x)
    ensures Evaluation(e, sqlite, d, x).1.views - Numbered(0, Size(x)) == d.views - Numbered(0, Size(x))
  {
    var t := Fresh(x);
    var (o, t1, d1) := Validate(e, sqlite, d, t);
    var d2 := if o == Ok then Query(e, d1, "SELECT * FROM " + Name(t1)).1 else d1;
    var d3 := Clean(e, d2, t1).2;
    CleanConfined(e, d2, t1);
    CorrectNamesWithin(t1);
    SameShapeNames(t, t1);
    MinusMono(d3.views, d2.views, CorrectNames(t1), Names(t));
  }

  /**
   * When validate returns normally and clean completes, every view the
   * evaluation created is gone again and no other view has changed.
   */
  lemma EvaluationCleansUp(e: Engine, sqlite: bool, d: DbState, x: Expr)
    requires WellFormedExpr(x)
    ensures var (report, d3) := Evaluation(e, sqlite, d, x);
      report.validation == Ok && report.cleaned ==> d3.views == d.views - Numbered(0, Size(x))
  {
    var t := Fresh(x);
    var (o, t1, d1) := Validate(e, sqlite, d, t);
    if o == Ok {
      var d2 := Query(e, d1, "SELECT * FROM " + Name(t1)).1;
      CleanViews(e, d2, t1);
      AllCorrectNames(t1);
      SameShapeNames(t, t1);
    }
  }

  /**
   * When validate returns normally the query names the root's view, which
   * then exists, and it is the view with the highest number.
   */
  lemma EvaluationQueriesRoot(e: Engine, sqlite: bool, d: DbState, x: Expr)
    requires WellFormedExpr(x)
    ensures var (o, t1, d1) := Validate(e, sqlite, d, Fresh(x));
      o == Ok ==> t1.status == Correct && Name(t1) == ViewName(Size(x)) && Name(t1) in d1.views
  {
    var t := Fresh(x);
    BuiltNames(x, 0);
    ValidateOkViewsExist(e, sqlite, d, t);
  }

  /**
   * A root marked ERROR whose view had been created (the create statement
   * ran but fetching the schema failed) keeps that view after the
   * evaluation: clean does not drop the views of ERROR nodes.
   */
  lemma EvaluationKeepsErrorRootView(e: Engine, sqlite: bool, d: DbState, x: Expr)
    requires WellFormedExpr(x)
    ensures var (o, t1, d1) := Validate(e, sqlite, d, Fresh(x));
      t1.status == Error && Name(t1) in d1.views ==> Name(t1) in Evaluation(e, sqlite, d, x).1.views
  {
    var t := Fresh(x);
    var (o, t1, d1) := Validate(e, sqlite, d, t);
    if t1.status == Error && Name(t1) in d1.views {
      assert o != Ok;
      SameShapeNamesOf(t.kids, t1.kids);
      CleanKeepsErrorView(e, d1, t1);
    }
  }
}
