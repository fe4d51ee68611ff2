/**
 * The shape of the tree an expression builds. Every node constructor takes
 * its children as arguments, so children are built, and draw their view
 * numbers, before their parent: the numbering is post-order, starting after
 * the generator's current count.
 */
module Construction {
  import opened Wrappers
  import opened ViewNames
  import opened RAXText
  import opened Lifecycle

  /** A parsed algebra expression: an operator applied to its argument expressions. */
  datatype Expr = Apply(op: Op, args: seq<Expr>)

  predicate WellFormedExpr(x: Expr)
    decreases x
  {
    |x.args| == Arity(x.op) && forall i :: 0 <= i < |x.args| ==> WellFormedExpr(x.args[i])
  }

  /** The number of nodes, hence of view names drawn, of an expression. */
  function Size(x: Expr): nat
    decreases x
  {
    1 + SizeOf(x.args)
  }

  function SizeOf(xs: seq<Expr>): nat
    decreases xs
  {
    if xs == [] then 0 else Size(xs[0]) + SizeOf(xs[1..])
  }

  /**
   * The tree built from `x` when the generator's count is `start`: all nodes
   * UNCHECKED without a schema, children numbered first, the node itself
   * last.
   */
  function Built(x: Expr, start: nat): Tree
    decreases x
  {
    Node(x.op, start + Size(x), Unchecked, None, BuiltOf(x.args, start))
  }

  function BuiltOf(xs: seq<Expr>, start: nat): (ts: seq<Tree>)
    ensures |ts| == |xs|
    decreases xs
  {
    if xs == [] then [] else [Built(xs[0], start)] + BuiltOf(xs[1..], start + Size(xs[0]))
  }

  /** The first argument's tree, then the others numbered after it. */
  lemma BuiltOfCons(xs: seq<Expr>, start: nat)
    requires xs != []
    ensures BuiltOf(xs, start) == [Built(xs[0], start)] + BuiltOf(xs[1..], start + Size(xs[0]))
    ensures SizeOf(xs) == Size(xs[0]) + SizeOf(xs[1..])
  {
  }

  /** A built tree has the right number of children everywhere. */
  lemma {:induction false} BuiltWellFormed(x: Expr, start: nat)
    requires WellFormedExpr(x)
    ensures WellFormed(Built(x, start))
    decreases x
  {
    BuiltOfWellFormed(x.args, start);
  }

  lemma {:induction false} BuiltOfWellFormed(xs: seq<Expr>, start: nat)
    requires forall i :: 0 <= i < |xs| ==> WellFormedExpr(xs[i])
    ensures forall i :: 0 <= i < |xs| ==> WellFormed(BuiltOf(xs, start)[i])
    decreases xs
  {
    if xs != [] {
      BuiltWellFormed(xs[0], start);
      BuiltOfWellFormed(xs[1..], start + Size(xs[0]));
    }
  }

  /** A freshly built tree has every node UNCHECKED. */
  lemma {:induction false} BuiltUnchecked(x: Expr, start: nat)
    ensures AllUnchecked(Built(x, start))
    decreases x
  {
    BuiltOfUnchecked(x.args, start);
  }

  lemma {:induction false} BuiltOfUnchecked(xs: seq<Expr>, start: nat)
    ensures forall i :: 0 <= i < |xs| ==> AllUnchecked(BuiltOf(xs, start)[i])
    decreases xs
  {
    if xs != [] {
      BuiltUnchecked(xs[0], start);
      BuiltOfUnchecked(xs[1..], start + Size(xs[0]));
    }
  }

  /** Every name in `names` is a temporary view name with a number in (lo, hi]. */
  predicate NumberedWithin(names: set<string>, lo: nat, hi: nat) {
    forall v :: v in names ==> ViewNumber(v).Some? && lo < ViewNumber(v).value <= hi
  }

  /**
   * The views of a tree built after count `start` are numbered
   * start+1 .. start+Size(x), the root carrying the largest number, and no
   * two nodes share a view.
   */
  lemma {:induction false} BuiltNames(x: Expr, start: nat)
    ensures Built(x, start).number == start + Size(x)
    ensures NumberedWithin(Names(Built(x, start)), start, start + Size(x))
    ensures UniqueNames(Built(x, start))
    decreases x
  {
    var t := Built(x, start);
    BuiltOfNames(x.args, start);
    ViewNumberOfViewName(t.number);
    assert Name(t) !in NamesOf(t.kids);
  }

  lemma {:induction false} BuiltOfNames(xs: seq<Expr>, start: nat)
    ensures NumberedWithin(NamesOf(BuiltOf(xs, start)), start, start + SizeOf(xs))
    ensures UniqueNamesOf(BuiltOf(xs, start))
    decreases xs
  {
    if xs != [] {
      var ts := BuiltOf(xs, start);
      var mid := start + Size(xs[0]);
      BuiltNames(xs[0], start);
      BuiltOfNames(xs[1..], mid);
      assert ts[0] == Built(xs[0], start);
      assert ts[1..] == BuiltOf(xs[1..], mid);
      assert Names(ts[0]) !! NamesOf(ts[1..]) by {
        forall v | v in Names(ts[0]) && v in NamesOf(ts[1..])
          ensures false
        {
        }
      }
    }
  }

  /** The temporary views numbered lo+1 .. hi. */
  function Numbered(lo: nat, hi: nat): set<string> {
    set k: nat | lo < k <= hi :: ViewName(k)
  }

  lemma NumberedOne(lo: nat)
    ensures Numbered(lo, lo + 1) == {ViewName(lo + 1)}
  {
    assert ViewName(lo + 1) in Numbered(lo, lo + 1);
  }

  lemma NumberedSplit(lo: nat, mid: nat, hi: nat)
    requires lo <= mid <= hi
    ensures Numbered(lo, mid) + Numbered(mid, hi) == Numbered(lo, hi)
  {
  }

  /** The views of a tree built after count `start` are exactly those numbered start+1 .. start+Size(x). */
  lemma {:induction false} BuiltNamesNumbered(x: Expr, start: nat)
    ensures Names(Built(x, start)) == Numbered(start, start + Size(x))
    decreases x
  {
    var mid := start + SizeOf(x.args);
    BuiltOfNamesNumbered(x.args, start);
    NumberedOne(mid);
    NumberedSplit(start, mid, mid + 1);
    assert Names(Built(x, start)) == {ViewName(mid + 1)} + NamesOf(BuiltOf(x.args, start));
  }

  lemma {:induction false} BuiltOfNamesNumbered(xs: seq<Expr>, start: nat)
    ensures NamesOf(BuiltOf(xs, start)) == Numbered(start, start + SizeOf(xs))
    decreases xs
  {
    if xs == [] {
      assert Numbered(start, start) == {};
    } else {
      var mid := start + Size(xs[0]);
      BuiltNamesNumbered(xs[0], start);
      BuiltOfNamesNumbered(xs[1..], mid);
      NumberedSplit(start, mid, start + SizeOf(xs));
    }
  }

  /** A parent's view number exceeds those of all nodes below it. */
  predicate ParentAbove(t: Tree)
    decreases t
  {
    forall i :: 0 <= i < |t.kids| ==> t.kids[i].number < t.number && ParentAbove(t.kids[i])
  }

  lemma {:induction false} BuiltParentAbove(x: Expr, start: nat)
    ensures ParentAbove(Built(x, start))
    decreases x
  {
    BuiltOfParentAbove(x.args, start);
  }

  lemma {:induction false} BuiltOfParentAbove(xs: seq<Expr>, start: nat)
    ensures forall i :: 0 <= i < |xs| ==>
      ParentAbove(BuiltOf(xs, start)[i]) && BuiltOf(xs, start)[i].number <= start + SizeOf(xs)
    decreases xs
  {
    if xs != [] {
      BuiltParentAbove(xs[0], start);
      BuiltOfParentAbove(xs[1..], start + Size(xs[0]));
    }
  }
}
