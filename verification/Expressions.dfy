/** Scalar expressions and their evaluation in a row context. The arithmetic,
    comparison, cast and function primitives are parameters; what is fixed here
    is the structure of evaluation, column resolution and three-valued logic. */
module Expressions {
  import opened Values

  // ----- three-valued logic -----

  datatype Truth = True | False | Unknown {
    function And(other: Truth): Truth {
      if this.False? || other.False? then False
      else if this.Unknown? || other.Unknown? then Unknown
      else True
    }

    function Or(other: Truth): Truth {
      if this.True? || other.True? then True
      else if this.Unknown? || other.Unknown? then Unknown
      else False
    }

    function Not(): Truth {
      match this
      case True => False
      case False => True
      case Unknown => Unknown
    }

    function ToValue(): Value {
      match this
      case True => Boolean(true)
      case False => Boolean(false)
      case Unknown => Null
    }
  }

  function TruthOf(v: Value): Truth {
    match v
    case Boolean(b) => if b then True else False
    case Null => Unknown
    case Integer(i) => if i != 0 then True else False
    case Float(f) => if f != 0.0 then True else False
    case Str(s) => if s != "" then True else False
    case Timestamp(_) => True
    case List(vs) => if vs != [] then True else False
  }

  /** The truth tables: AND is the smaller and OR the larger of the two truths, with
      unknown between false and true; NOT exchanges true and false. */
  lemma {:induction false} TruthTables(a: Truth, b: Truth)
    ensures (a.And(b) == True <==> a == True && b == True) && (a.And(b) == False <==> a == False || b == False)
    ensures (a.Or(b) == False <==> a == False && b == False) && (a.Or(b) == True <==> a == True || b == True)
    ensures (a.Not() == True <==> a == False) && (a.Not() == False <==> a == True)
    ensures TruthOf(a.ToValue()) == a && (a.ToValue().Boolean? || a.ToValue().Null?)
  {
  }

  /** Which values count as true: all but NULL, false, zero and what is empty. */
  lemma {:induction false} TruthOfMeans(v: Value)
    ensures TruthOf(v) == Unknown <==> v == Null
    ensures TruthOf(v) == False <==> v in {Boolean(false), Integer(0), Float(0.0), Str(""), List([])}
  {
  }

  // ----- syntax -----

  datatype BinaryOperator =
    | Equals | NotEquals | LessThan | LessThanOrEquals | GreaterThan | GreaterThanOrEquals
    | Like | ILike | In | And | Or | Is | IsNot
    | Add | Subtract | Multiply | Divide | Concatenate

  datatype UnaryOperator = Not | Minus | Plus | ExistsOp | NotExistsOp

  datatype WindowCall = WindowCall(name: string, args: seq<Expr>, partitionBy: seq<Expr>, orderBy: seq<Expr>)

  datatype Branch = Branch(condition: Expr, result: Expr)

  /** A subquery is known here only by a number and by whether a window call
      occurs somewhere inside it. */
  datatype Expr =
    | Column(table: Option<string>, name: string)
    | Constant(value: Value)
    | Literal(literal: Value)
    | Function(fn: string, args: seq<Expr>, distinct: bool)
    | Window(call: WindowCall)
    | BinaryOp(left: Expr, op: BinaryOperator, right: Expr)
    | UnaryOp(uop: UnaryOperator, operand: Expr)
    | Cast(inner: Expr, target: string)
    | Subquery(id: nat, hasWindow: bool)
    | Exists(id: nat, negated: bool, hasWindow: bool)
    | ListOf(items: seq<Expr>)
    | Star
    | Parameter(index: nat)
    | Case(base: Option<Expr>, branches: seq<Branch>, otherwise: Option<Expr>)

  // ----- contexts -----

  /** What an expression is evaluated against: named column values, the choice
      made when several qualified columns fit a name, and the columns of a join
      that can only be found by position. */
  datatype Context = Context(columns: map<string, Value>, pick: set<string> -> string, joined: string -> Option<Value>)

  function AfterDot(s: string): Option<string> {
    if s == "" then None else if s[0] == '.' then Some(s[1..]) else AfterDot(s[1..])
  }

  function Candidates(columns: map<string, Value>, name: string): set<string> {
    set k | k in columns && AfterDot(k) == Some(name)
  }

  function Resolve(ctx: Context, table: Option<string>, name: string): Value {
    match table
    case None => if name in ctx.columns then ctx.columns[name] else Null
    case Some(t) =>
      var fits := Candidates(ctx.columns, name);
      if t + "." + name in ctx.columns then ctx.columns[t + "." + name]
      else if "left." + name in ctx.columns then ctx.columns["left." + name]
      else if "right." + name in ctx.columns then ctx.columns["right." + name]
      else if fits != {} && ctx.pick(fits) in fits then ctx.columns[ctx.pick(fits)]
      else if ctx.joined(name).Some? then ctx.joined(name).value
      else if name in ctx.columns then ctx.columns[name]
      else Null
  }

  // ----- evaluation -----

  /** The primitives. `None` is an evaluation error. A function sees the results
      of evaluating its arguments, errors included, because some functions stop
      at the first argument that decides them. A subquery is told whether it is
      the right side of IN, and an EXISTS whether it is negated. */
  datatype Primitives = Primitives(
    binary: (BinaryOperator, Value, Value) -> Option<Value>,
    unary: (UnaryOperator, Value) -> Option<Value>,
    cast: (Value, string) -> Option<Value>,
    call: (string, seq<Option<Value>>) -> Option<Value>,
    equals: (Value, Value) -> Value,
    subquery: (nat, bool, map<string, Value>) -> Option<Value>,
    existence: (nat, bool, map<string, Value>) -> Option<Value>)

  type Windows = WindowCall -> Option<Value>

  function EvaluateBinary(ops: Primitives, op: BinaryOperator, l: Value, r: Value): Option<Value> {
    if !op.Is? && !op.IsNot? && (l.Null? || r.Null?) then Some(Null)
    else
      match op
      case And => Some(TruthOf(l).And(TruthOf(r)).ToValue())
      case Or => Some(TruthOf(l).Or(TruthOf(r)).ToValue())
      case _ => ops.binary(op, l, r)
  }

  function EvaluateUnary(ops: Primitives, uop: UnaryOperator, v: Value): Option<Value> {
    if uop.Not? then Some(TruthOf(v).Not().ToValue()) else ops.unary(uop, v)
  }

  function Eval(e: Expr, ctx: Context, ops: Primitives, win: Windows): Option<Value>
    decreases e
  {
    match e
    case Column(table, name) => Some(Resolve(ctx, table, name))
    case Constant(v) => Some(v)
    case Literal(v) => Some(v)
    case Function(fn, args, _) => ops.call(fn, EvalAll(args, ctx, ops, win))
    case Window(call) => win(call)
    case BinaryOp(left, op, right) =>
      var l, r := Eval(left, ctx, ops, win),
        if op.In? && right.Subquery? then ops.subquery(right.id, true, ctx.columns) else Eval(right, ctx, ops, win);
      if l.None? || r.None? then None else EvaluateBinary(ops, op, l.value, r.value)
    case UnaryOp(uop, operand) =>
      var v := Eval(operand, ctx, ops, win);
      if v.None? then None else EvaluateUnary(ops, uop, v.value)
    case Cast(inner, target) =>
      var v := Eval(inner, ctx, ops, win);
      if v.None? then None else ops.cast(v.value, target)
    case Subquery(id, _) => ops.subquery(id, false, ctx.columns)
    case Exists(id, negated, _) => ops.existence(id, negated, ctx.columns)
    case ListOf(items) =>
      var vs := EvalAll(items, ctx, ops, win);
      if None in vs then None else Some(List(Unwrapped(vs)))
    case Star => None
    case Parameter(_) => None
    case Case(base, branches, otherwise) =>
      var v := EvalOption(base, ctx, ops, win);
      CaseResult(v, EvalBranches(if v.Some? then v.value else None, branches, ctx, ops, win), EvalOption(otherwise, ctx, ops, win))
  }

  /** An error in the base, the branch that applies, or else the ELSE part. */
  function CaseResult(base: Option<Option<Value>>, chosen: Option<Option<Value>>, otherwise: Option<Option<Value>>): Option<Value> {
    if base == Some(None) then None
    else if chosen.Some? then chosen.value
    else if otherwise.Some? then otherwise.value
    else Some(Null)
  }

  function Unwrapped(vs: seq<Option<Value>>): seq<Value>
    requires None !in vs
  {
    if vs == [] then [] else assert vs[0] in vs; [vs[0].value] + Unwrapped(vs[1..])
  }

  function EvalAll(es: seq<Expr>, ctx: Context, ops: Primitives, win: Windows): seq<Option<Value>>
    decreases es
  {
    if es == [] then [] else [Eval(es[0], ctx, ops, win)] + EvalAll(es[1..], ctx, ops, win)
  }

  function EvalOption(e: Option<Expr>, ctx: Context, ops: Primitives, win: Windows): Option<Option<Value>>
    decreases e
  {
    if e.None? then None else Some(Eval(e.value, ctx, ops, win))
  }

  /** The outcome of the first branch that applies, if any: with a base value,
      the first one equal to it; without, the first whose condition is true. An
      error in a condition ends the search. */
  function EvalBranches(base: Option<Value>, branches: seq<Branch>, ctx: Context, ops: Primitives, win: Windows)
    : Option<Option<Value>>
    decreases branches
  {
    if branches == [] then None
    else
      var b := branches[0];
      assert branches decreases to b;
      var c := Eval(b.condition, ctx, ops, win);
      if c.None? then Some(None)
      else if TruthOf(if base.Some? then ops.equals(base.value, c.value) else c.value).True? then
        Some(Eval(b.result, ctx, ops, win))
      else EvalBranches(base, branches[1..], ctx, ops, win)
  }

  // ----- what evaluation chooses -----

  /** The condition of a branch is true, or equal to the base value; `None` if it
      fails to evaluate. */
  function Applies(base: Option<Value>, b: Branch, ctx: Context, ops: Primitives, win: Windows): Option<bool> {
    match Eval(b.condition, ctx, ops, win)
    case None => None
    case Some(c) => Some(TruthOf(if base.Some? then ops.equals(base.value, c) else c) == True)
  }

  lemma {:induction false} BranchesMean(base: Option<Value>, branches: seq<Branch>, ctx: Context, ops: Primitives, win: Windows, k: nat)
    requires k <= |branches| && forall j | 0 <= j < k :: Applies(base, branches[j], ctx, ops, win) == Some(false)
    ensures k == |branches| ==> EvalBranches(base, branches, ctx, ops, win) == None
    ensures k < |branches| && Applies(base, branches[k], ctx, ops, win) == Some(true) ==>
      EvalBranches(base, branches, ctx, ops, win) == Some(Eval(branches[k].result, ctx, ops, win))
    ensures k < |branches| && Applies(base, branches[k], ctx, ops, win) == None ==>
      EvalBranches(base, branches, ctx, ops, win) == Some(None)
  {
    if k != 0 {
      assert Applies(base, branches[0], ctx, ops, win) == Some(false);
      BranchesMean(base, branches[1..], ctx, ops, win, k - 1);
    }
  }

  /** CASE has the value of the first branch that applies, or else of its ELSE part,
      or else NULL; nothing behind the chosen branch is looked at. */
  lemma {:induction false} CaseMeans(e: Expr, base: Option<Value>, ctx: Context, ops: Primitives, win: Windows, k: nat)
    requires e.Case? && (if e.base.Some? then base.Some? && Eval(e.base.value, ctx, ops, win) == base else base == None)
    requires k <= |e.branches| && forall j | 0 <= j < k :: Applies(base, e.branches[j], ctx, ops, win) == Some(false)
    ensures k == |e.branches| ==>
      Eval(e, ctx, ops, win) == if e.otherwise.Some? then Eval(e.otherwise.value, ctx, ops, win) else Some(Null)
    ensures k < |e.branches| && Applies(base, e.branches[k], ctx, ops, win) == Some(true) ==>
      Eval(e, ctx, ops, win) == Eval(e.branches[k].result, ctx, ops, win)
    ensures k < |e.branches| && Applies(base, e.branches[k], ctx, ops, win) == None ==> Eval(e, ctx, ops, win) == None
  {
    BranchesMean(base, e.branches, ctx, ops, win, k);
  }

  /** A base that fails to evaluate fails the whole CASE. */
  lemma {:induction false} CaseFails(e: Expr, ctx: Context, ops: Primitives, win: Windows)
    requires e.Case? && e.base.Some? && Eval(e.base.value, ctx, ops, win) == None
    ensures Eval(e, ctx, ops, win) == None
  {
  }

  /** A subquery is asked for one value, except to the right of IN, where it is asked
      for all of them; EXISTS and NOT EXISTS ask different questions. */
  lemma {:induction false} SubqueryMeans(left: Expr, id: nat, hasWindow: bool, ctx: Context, ops: Primitives, win: Windows)
    ensures Eval(Subquery(id, hasWindow), ctx, ops, win) == ops.subquery(id, false, ctx.columns)
    ensures var l, r := Eval(left, ctx, ops, win), ops.subquery(id, true, ctx.columns);
      Eval(BinaryOp(left, In, Subquery(id, hasWindow)), ctx, ops, win) ==
        if l == None || r == None then None
        else if l == Some(Null) || r == Some(Null) then Some(Null)
        else ops.binary(In, l.value, r.value)
    ensures Eval(Exists(id, false, hasWindow), ctx, ops, win) == ops.existence(id, false, ctx.columns)
    ensures Eval(Exists(id, true, hasWindow), ctx, ops, win) == ops.existence(id, true, ctx.columns)
  {
  }

  /** An operator sees its operands' values left and right; an error in either is an
      error, and a NULL in either gives NULL except under IS and IS NOT. */
  lemma {:induction false} OperatorMeans(left: Expr, op: BinaryOperator, right: Expr, ctx: Context, ops: Primitives, win: Windows)
    requires !op.And? && !op.Or? && !(op.In? && right.Subquery?)
    ensures var l, r := Eval(left, ctx, ops, win), Eval(right, ctx, ops, win);
      Eval(BinaryOp(left, op, right), ctx, ops, win) ==
        if l == None || r == None then None
        else if (l == Some(Null) || r == Some(Null)) && op != Is && op != IsNot then Some(Null)
        else ops.binary(op, l.value, r.value)
  {
  }

  lemma {:induction false} EvalAllAt(es: seq<Expr>, ctx: Context, ops: Primitives, win: Windows, k: nat)
    requires k < |es|
    ensures |EvalAll(es, ctx, ops, win)| == |es| && EvalAll(es, ctx, ops, win)[k] == Eval(es[k], ctx, ops, win)
  {
    if |es| > 1 { EvalAllAt(es[1..], ctx, ops, win, if k == 0 then 0 else k - 1); }
  }

  lemma {:induction false} UnwrappedAt(vs: seq<Option<Value>>, k: nat)
    requires None !in vs && k < |vs|
    ensures |Unwrapped(vs)| == |vs| && vs[k] == Some(Unwrapped(vs)[k])
  {
    assert vs[k] in vs;
    if |vs| > 1 { UnwrappedAt(vs[1..], if k == 0 then 0 else k - 1); }
  }

  /** A list has the values of its items in their places, or an error if one has. */
  lemma {:induction false} ListMeans(items: seq<Expr>, ctx: Context, ops: Primitives, win: Windows, k: nat)
    requires k < |items|
    ensures Eval(items[k], ctx, ops, win) == None ==> Eval(ListOf(items), ctx, ops, win) == None
    ensures match Eval(ListOf(items), ctx, ops, win)
      case None => exists i | 0 <= i < |items| :: Eval(items[i], ctx, ops, win) == None
      case Some(v) => v.List? && |v.vs| == |items| && Eval(items[k], ctx, ops, win) == Some(v.vs[k])
  {
    var vs := EvalAll(items, ctx, ops, win);
    EvalAllAt(items, ctx, ops, win, k);
    if None in vs {
      var i: nat :| i < |vs| && vs[i] == None;
      EvalAllAt(items, ctx, ops, win, i);
    } else {
      UnwrappedAt(vs, k);
    }
  }

  /** Casts and the operators with one operand see its value, unless it fails. */
  lemma {:induction false} OneOperandMeans(operand: Expr, uop: UnaryOperator, target: string, ctx: Context, ops: Primitives, win: Windows)
    ensures var v := Eval(operand, ctx, ops, win);
      && Eval(Cast(operand, target), ctx, ops, win) == (if v == None then None else ops.cast(v.value, target))
      && (uop != Not ==> Eval(UnaryOp(uop, operand), ctx, ops, win) == if v == None then None else ops.unary(uop, v.value))
  {
  }

  /** What follows the first dot, if there is one. */
  lemma {:induction false} AfterDotMeans(t: string, rest: string)
    requires '.' !in t
    ensures AfterDot(t + "." + rest) == Some(rest) && AfterDot(t) == None
  {
    if t != "" {
      AfterDotMeans(t[1..], rest);
      assert (t + "." + rest)[1..] == t[1..] + "." + rest;
    } else {
      assert ("." + rest)[1..] == rest && t + "." + rest == "." + rest;
    }
  }

  /** Failing all that, a qualified name is the one column whose own name it is, or
      the column alone, wherever the join has put none. */
  lemma {:induction false} QualifiedFallback(t: string, name: string, k: string, ctx: Context)
    requires t + "." + name !in ctx.columns && "left." + name !in ctx.columns && "right." + name !in ctx.columns
    ensures
      && k in ctx.columns && AfterDot(k) == Some(name) && ctx.pick({k}) == k
      && (forall j | j in ctx.columns && AfterDot(j) == Some(name) :: j == k)
      ==> Resolve(ctx, Some(t), name) == ctx.columns[k]
    ensures (forall j | j in ctx.columns :: AfterDot(j) != Some(name)) ==>
      Resolve(ctx, Some(t), name) ==
        if ctx.joined(name).Some? then ctx.joined(name).value else if name in ctx.columns then ctx.columns[name] else Null
  {
    if k in ctx.columns && AfterDot(k) == Some(name) && forall j | j in ctx.columns && AfterDot(j) == Some(name) :: j == k {
      assert Candidates(ctx.columns, name) == {k};
    }
    if forall j | j in ctx.columns :: AfterDot(j) != Some(name) { assert Candidates(ctx.columns, name) == {}; }
  }

  /** A name alone is that column and nothing else. A qualified name is first of all
      itself, then the column of the left and then that of the right input. */
  lemma {:induction false} ColumnMeans(t: string, name: string, ctx: Context)
    ensures Resolve(ctx, None, name) == if name in ctx.columns then ctx.columns[name] else Null
    ensures t + "." + name in ctx.columns ==> Resolve(ctx, Some(t), name) == ctx.columns[t + "." + name]
    ensures t + "." + name !in ctx.columns && "left." + name in ctx.columns ==> Resolve(ctx, Some(t), name) == ctx.columns["left." + name]
    ensures t + "." + name !in ctx.columns && "left." + name !in ctx.columns && "right." + name in ctx.columns ==>
      Resolve(ctx, Some(t), name) == ctx.columns["right." + name]
  {
  }

  // ----- conditions and three-valued logic -----

  predicate Connective(e: Expr) {
    (e.BinaryOp? && (e.op.And? || e.op.Or?)) || (e.UnaryOp? && e.uop.Not?)
  }

  /** The value of a condition in three-valued logic: AND, OR and NOT by their
      truth tables, everything else by evaluation. */
  function Kleene(e: Expr, ctx: Context, ops: Primitives, win: Windows): Option<Truth> {
    if !Connective(e) then
      var v := Eval(e, ctx, ops, win);
      if v.None? then None else Some(TruthOf(v.value))
    else if e.UnaryOp? then
      var v := Kleene(e.operand, ctx, ops, win);
      if v.None? then None else Some(v.value.Not())
    else
      var l, r := Kleene(e.left, ctx, ops, win), Kleene(e.right, ctx, ops, win);
      if l.None? || r.None? then None
      else Some(if e.op.And? then l.value.And(r.value) else l.value.Or(r.value))
  }

  /** Some operand of the condition, below all its connectives, is NULL. */
  predicate NullLeaf(e: Expr, ctx: Context, ops: Primitives, win: Windows) {
    if !Connective(e) then Eval(e, ctx, ops, win) == Some(Null)
    else if e.UnaryOp? then NullLeaf(e.operand, ctx, ops, win)
    else NullLeaf(e.left, ctx, ops, win) || NullLeaf(e.right, ctx, ops, win)
  }

  /** One NULL anywhere makes the whole condition NULL, whatever the other
      operands decide; without one, evaluation is three-valued logic. */
  lemma {:induction false} NullSpreads(e: Expr, ctx: Context, ops: Primitives, win: Windows)
    ensures Eval(e, ctx, ops, win).None? <==> Kleene(e, ctx, ops, win).None?
    ensures Eval(e, ctx, ops, win).Some? ==> (NullLeaf(e, ctx, ops, win) <==> Eval(e, ctx, ops, win) == Some(Null))
    ensures Eval(e, ctx, ops, win).Some? && !NullLeaf(e, ctx, ops, win) ==>
              Kleene(e, ctx, ops, win) == Some(TruthOf(Eval(e, ctx, ops, win).value)) &&
              Kleene(e, ctx, ops, win) != Some(Unknown)
  {
    if Connective(e) && e.UnaryOp? {
      NullSpreads(e.operand, ctx, ops, win);
    } else if Connective(e) {
      NullSpreads(e.left, ctx, ops, win);
      NullSpreads(e.right, ctx, ops, win);
    }
  }

  /** A condition has its three-valued result exactly when no operand is NULL or
      that result is unknown anyway. As a filter it keeps no row that logic
      rejects, and loses a row exactly when the condition is true although some
      operand is NULL. */
  lemma {:induction false} ConditionIsKleeneIff(e: Expr, ctx: Context, ops: Primitives, win: Windows)
    requires Connective(e) && Kleene(e, ctx, ops, win).Some?
    ensures Eval(e, ctx, ops, win) == Some(Kleene(e, ctx, ops, win).value.ToValue()) <==>
            !NullLeaf(e, ctx, ops, win) || Kleene(e, ctx, ops, win) == Some(Unknown)
    ensures Eval(e, ctx, ops, win) == Some(Boolean(true)) <==>
            Kleene(e, ctx, ops, win) == Some(True) && !NullLeaf(e, ctx, ops, win)
  {
    NullSpreads(e, ctx, ops, win);
  }

  lemma {:induction false} FalseAndNullIsNull(ctx: Context, ops: Primitives, win: Windows)
    ensures Eval(BinaryOp(Constant(Boolean(false)), And, Constant(Null)), ctx, ops, win) == Some(Null)
    ensures Kleene(BinaryOp(Constant(Boolean(false)), And, Constant(Null)), ctx, ops, win) == Some(False)
  {
  }
}
