/** The planner pass that moves window calls out of expressions: each call is
    replaced by a column with a generated name and computed separately. */
module WindowExtraction {
  import opened Values
  import opened Expressions

  // ----- generated names -----

  function Digits(k: nat): string {
    if k < 10 then [('0' as int + k) as char] else Digits(k / 10) + [('0' as int + k % 10) as char]
  }

  function Name(k: nat): string {
    "win_func_" + Digits(k)
  }

  lemma {:induction false} DigitsInjective(a: nat, b: nat)
    requires Digits(a) == Digits(b)
    ensures a == b
  {
    var s, t := Digits(a), Digits(b);
    DigitsNonempty(a / 10);
    DigitsNonempty(b / 10);
    assert s[|s| - 1] == t[|t| - 1];
    if a >= 10 && b >= 10 {
      assert s[..|s| - 1] == Digits(a / 10) && t[..|t| - 1] == Digits(b / 10);
      DigitsInjective(a / 10, b / 10);
    }
  }

  lemma {:induction false} DigitsNonempty(a: nat)
    ensures |Digits(a)| >= 1 && '.' !in Digits(a)
  {
    if a >= 10 { DigitsNonempty(a / 10); }
  }

  lemma {:induction false} NamesDistinct(a: nat, b: nat)
    ensures Name(a) == Name(b) <==> a == b
    ensures '.' !in Name(a)
  {
    DigitsNonempty(a);
    if Name(a) == Name(b) {
      assert Digits(a) == Name(a)[9..] && Digits(b) == Name(b)[9..];
      DigitsInjective(a, b);
    }
  }

  function DecimalValue(s: string): int {
    if s == "" then 0 else DecimalValue(s[..|s| - 1]) * 10 + (s[|s| - 1] as int - '0' as int)
  }

  /** A generated name is the prefix followed by the number in decimal. */
  lemma {:induction false} NameReads(k: nat)
    ensures Name(k)[..9] == "win_func_" && DecimalValue(Name(k)[9..]) == k
    ensures forall c | c in Name(k)[9..] :: '0' <= c <= '9'
  {
    DigitsRead(k);
    assert Name(k)[9..] == Digits(k);
  }

  lemma {:induction false} DigitsRead(k: nat)
    ensures DecimalValue(Digits(k)) == k && forall c | c in Digits(k) :: '0' <= c <= '9'
  {
    var s := Digits(k);
    if k >= 10 {
      DigitsRead(k / 10);
      assert s[..|s| - 1] == Digits(k / 10);
    } else {
      assert s[..0] == "" && DecimalValue("") == 0;
    }
  }

  // ----- the window calls of an expression -----

  predicate Contains(e: Expr)
    decreases e
  {
    match e
    case Window(_) => true
    case BinaryOp(left, _, right) => Contains(left) || Contains(right)
    case UnaryOp(_, operand) => Contains(operand)
    case Function(_, args, _) => exists k | 0 <= k < |args| :: Contains(args[k])
    case Cast(inner, _) => Contains(inner)
    case Case(base, branches, otherwise) =>
      || (base.Some? && Contains(base.value))
      || (exists k | 0 <= k < |branches| :: ContainsBranch(branches[k]))
      || (otherwise.Some? && Contains(otherwise.value))
    case ListOf(items) => exists k | 0 <= k < |items| :: Contains(items[k])
    case Exists(_, _, hasWindow) => hasWindow
    case Subquery(_, hasWindow) => hasWindow
    case _ => false
  }

  predicate ContainsBranch(b: Branch)
    decreases b
  {
    Contains(b.condition) || Contains(b.result)
  }

  /** The window calls of an expression from left to right. Those inside a
      subquery belong to the subquery. */
  function Calls(e: Expr): seq<WindowCall>
    decreases e
  {
    match e
    case Window(call) => [call]
    case BinaryOp(left, _, right) => Calls(left) + Calls(right)
    case UnaryOp(_, operand) => Calls(operand)
    case Function(_, args, _) => CallsAll(args)
    case Cast(inner, _) => Calls(inner)
    case Case(base, branches, otherwise) => CallsOption(base) + CallsBranches(branches) + CallsOption(otherwise)
    case ListOf(items) => CallsAll(items)
    case _ => []
  }

  function CallsOption(e: Option<Expr>): seq<WindowCall>
    decreases e
  {
    if e.None? then [] else Calls(e.value)
  }

  function CallsAll(es: seq<Expr>): seq<WindowCall>
    decreases es
  {
    if es == [] then [] else Calls(es[0]) + CallsAll(es[1..])
  }

  function CallsBranches(bs: seq<Branch>): seq<WindowCall>
    decreases bs
  {
    if bs == [] then []
    else
      var b := bs[0];
      assert bs decreases to b;
      Calls(b.condition) + Calls(b.result) + CallsBranches(bs[1..])
  }

  // ----- extraction -----

  type Named = (string, WindowCall)

  datatype Extraction<+T> = Extraction(calls: seq<Named>, out: T, next: nat)

  function Label(ws: seq<WindowCall>, c: nat): seq<Named> {
    seq(|ws|, i requires 0 <= i < |ws| => (Name(c + i), ws[i]))
  }

  function Extract(e: Expr, c: nat): Extraction<Expr>
    decreases e
  {
    match e
    case Window(call) => Extraction([(Name(c), call)], Column(None, Name(c)), c + 1)
    case BinaryOp(left, op, right) =>
      var l := Extract(left, c);
      var r := Extract(right, l.next);
      Extraction(l.calls + r.calls, BinaryOp(l.out, op, r.out), r.next)
    case UnaryOp(uop, operand) =>
      var x := Extract(operand, c);
      x.(out := UnaryOp(uop, x.out))
    case Function(fn, args, distinct) =>
      var x := ExtractAll(args, c);
      Extraction(x.calls, Function(fn, x.out, distinct), x.next)
    case Cast(inner, target) =>
      var x := Extract(inner, c);
      x.(out := Cast(x.out, target))
    case Case(base, branches, otherwise) =>
      var b := ExtractOption(base, c);
      var bs := ExtractBranches(branches, b.next);
      var o := ExtractOption(otherwise, bs.next);
      Extraction(b.calls + bs.calls + o.calls, Case(b.out, bs.out, o.out), o.next)
    case ListOf(items) =>
      var x := ExtractAll(items, c);
      Extraction(x.calls, ListOf(x.out), x.next)
    case _ => Extraction([], e, c)
  }

  function ExtractOption(e: Option<Expr>, c: nat): Extraction<Option<Expr>>
    decreases e
  {
    if e.None? then Extraction([], None, c)
    else
      var x := Extract(e.value, c);
      Extraction(x.calls, Some(x.out), x.next)
  }

  function ExtractAll(es: seq<Expr>, c: nat): Extraction<seq<Expr>>
    decreases es
  {
    if es == [] then Extraction([], [], c)
    else
      var x := Extract(es[0], c);
      var rest := ExtractAll(es[1..], x.next);
      Extraction(x.calls + rest.calls, [x.out] + rest.out, rest.next)
  }

  function ExtractBranches(bs: seq<Branch>, c: nat): Extraction<seq<Branch>>
    decreases bs
  {
    if bs == [] then Extraction([], [], c)
    else
      var b := bs[0];
      assert bs decreases to b;
      var x := Extract(b.condition, c);
      var y := Extract(b.result, x.next);
      var rest := ExtractBranches(bs[1..], y.next);
      Extraction(x.calls + y.calls + rest.calls, [Branch(x.out, y.out)] + rest.out, rest.next)
  }

  // ----- what is extracted -----

  predicate Listed(calls: seq<Named>, ws: seq<WindowCall>, c: nat, next: nat) {
    calls == Label(ws, c) && next == c + |ws|
  }

  lemma {:induction false} ListedAppend(xs: seq<Named>, u: seq<WindowCall>, c: nat, mid: nat, ys: seq<Named>, v: seq<WindowCall>, next: nat)
    requires Listed(xs, u, c, mid) && Listed(ys, v, mid, next)
    ensures Listed(xs + ys, u + v, c, next)
  {
  }

  /** Extraction lists exactly the window calls of the expression, left to
      right, under consecutive generated names, and leaves none behind. */
  lemma {:induction false} ExtractListsCalls(e: Expr, c: nat)
    ensures Listed(Extract(e, c).calls, Calls(e), c, Extract(e, c).next)
    ensures Calls(Extract(e, c).out) == []
    decreases e, 1
  {
    match e
    case BinaryOp(left, _, right) =>
      var l := Extract(left, c);
      ExtractListsCalls(left, c);
      var r := Extract(right, l.next);
      ExtractListsCalls(right, l.next);
      ListedAppend(l.calls, Calls(left), c, l.next, r.calls, Calls(right), r.next);
    case UnaryOp(_, operand) => ExtractListsCalls(operand, c);
    case Function(_, args, _) => ExtractAllListsCalls(args, c);
    case Cast(inner, _) => ExtractListsCalls(inner, c);
    case Case(_, _, _) => ExtractCaseListsCalls(e, c);
    case ListOf(items) => ExtractAllListsCalls(items, c);
    case _ =>
  }

  lemma {:induction false} ExtractCaseListsCalls(e: Expr, c: nat)
    requires e.Case?
    ensures Listed(Extract(e, c).calls, Calls(e), c, Extract(e, c).next)
    ensures Calls(Extract(e, c).out) == []
    decreases e, 0
  {
    var Case(base, branches, otherwise) := e;
    var b := ExtractOption(base, c);
    var bs := ExtractBranches(branches, b.next);
    ExtractOptionListsCalls(base, c);
    ExtractBranchesListsCalls(branches, b.next);
    ExtractOptionListsCalls(otherwise, bs.next);
    var o := ExtractOption(otherwise, bs.next);
    var ws := CallsOption(base) + CallsBranches(branches);
    ListedAppend(b.calls, CallsOption(base), c, b.next, bs.calls, CallsBranches(branches), bs.next);
    ListedAppend(b.calls + bs.calls, ws, c, bs.next, o.calls, CallsOption(otherwise), o.next);
  }

  lemma {:induction false} ExtractOptionListsCalls(e: Option<Expr>, c: nat)
    ensures Listed(ExtractOption(e, c).calls, CallsOption(e), c, ExtractOption(e, c).next)
    ensures CallsOption(ExtractOption(e, c).out) == []
    decreases e
  {
    if e.Some? { ExtractListsCalls(e.value, c); }
  }

  lemma {:induction false} ExtractAllListsCalls(es: seq<Expr>, c: nat)
    ensures Listed(ExtractAll(es, c).calls, CallsAll(es), c, ExtractAll(es, c).next)
    ensures CallsAll(ExtractAll(es, c).out) == []
    decreases es
  {
    if es != [] {
      var x := Extract(es[0], c);
      ExtractListsCalls(es[0], c);
      ExtractAllListsCalls(es[1..], x.next);
      var rest := ExtractAll(es[1..], x.next);
      ListedAppend(x.calls, Calls(es[0]), c, x.next, rest.calls, CallsAll(es[1..]), rest.next);
      assert ExtractAll(es, c).out[1..] == rest.out;
    }
  }

  lemma {:induction false} ExtractBranchesListsCalls(bs: seq<Branch>, c: nat)
    ensures Listed(ExtractBranches(bs, c).calls, CallsBranches(bs), c, ExtractBranches(bs, c).next)
    ensures CallsBranches(ExtractBranches(bs, c).out) == []
    decreases bs
  {
    if bs != [] {
      var b := bs[0];
      assert bs decreases to b;
      var x := Extract(b.condition, c);
      var y := Extract(b.result, x.next);
      ExtractListsCalls(b.condition, c);
      ExtractListsCalls(b.result, x.next);
      ExtractBranchesListsCalls(bs[1..], y.next);
      var rest := ExtractBranches(bs[1..], y.next);
      var ws := Calls(b.condition) + Calls(b.result);
      ListedAppend(x.calls, Calls(b.condition), c, x.next, y.calls, Calls(b.result), y.next);
      ListedAppend(x.calls + y.calls, ws, c, y.next, rest.calls, CallsBranches(bs[1..]), rest.next);
      assert ExtractBranches(bs, c).out[1..] == rest.out;
    }
  }

  // ----- what the rewritten expression means -----

  predicate Avoids(e: Expr, added: set<string>)
    decreases e
  {
    match e
    case Column(_, name) => name !in added
    case BinaryOp(left, _, right) => Avoids(left, added) && Avoids(right, added)
    case UnaryOp(_, operand) => Avoids(operand, added)
    case Function(_, args, _) => forall k | 0 <= k < |args| :: Avoids(args[k], added)
    case Cast(inner, _) => Avoids(inner, added)
    case Case(base, branches, otherwise) =>
      && (base.Some? ==> Avoids(base.value, added))
      && (forall k | 0 <= k < |branches| :: AvoidsBranch(branches[k], added))
      && (otherwise.Some? ==> Avoids(otherwise.value, added))
    case ListOf(items) => forall k | 0 <= k < |items| :: Avoids(items[k], added)
    case _ => true
  }

  predicate AvoidsBranch(b: Branch, added: set<string>)
    decreases b
  {
    Avoids(b.condition, added) && Avoids(b.result, added)
  }

  /** The context after the window step: the added columns apart, it is the one
      before it, and subqueries do not look at the added columns. */
  ghost predicate Extends(before: Context, after: Context, added: set<string>, ops: Primitives) {
    && (forall n <- added :: '.' !in n)
    && (forall n: string | n !in added :: n in before.columns <==> n in after.columns)
    && (forall n <- before.columns | n !in added :: n in after.columns && before.columns[n] == after.columns[n])
    && before.pick == after.pick && before.joined == after.joined
    && (forall id, flag :: ops.subquery(id, flag, before.columns) == ops.subquery(id, flag, after.columns))
    && (forall id, flag :: ops.existence(id, flag, before.columns) == ops.existence(id, flag, after.columns))
  }

  /** Every listed call is found in the context under its name. */
  ghost predicate Bound(calls: seq<Named>, after: Context, added: set<string>, win: WindowCall -> Value) {
    forall i | 0 <= i < |calls| ::
      && calls[i].0 in added && calls[i].0 in after.columns
      && after.columns[calls[i].0] == win(calls[i].1)
  }

  /** Window calls answered by `win`, and not answered at all. */
  function Answered(win: WindowCall -> Value): Windows { w => Some(win(w)) }
  function Unanswered(): Windows { w => None }

  lemma {:induction false} AfterDotNeedsDot(s: string)
    ensures AfterDot(s).Some? ==> '.' in s
  {
    if s != "" && s[0] != '.' { AfterDotNeedsDot(s[1..]); }
  }

  lemma {:induction false} ResolveAgrees(table: Option<string>, name: string, before: Context, after: Context, added: set<string>, ops: Primitives)
    requires Extends(before, after, added, ops) && name !in added
    ensures Resolve(before, table, name) == Resolve(after, table, name)
  {
    if table.Some? {
      var t := table.value;
      forall s: string ensures s + "." + name !in added {
        assert (s + "." + name)[|s|] == '.';
      }
      assert "left." + name == "left" + "." + name && "right." + name == "right" + "." + name;
      forall k: string | AfterDot(k).Some? ensures k !in added { AfterDotNeedsDot(k); }
      assert Candidates(before.columns, name) == Candidates(after.columns, name);
    }
  }

  /** Extraction preserves meaning: whatever the window calls evaluate to, the
      rewritten expression, which can ask for none of them, has the original's
      value or error once each generated column holds its call's value. */
  lemma {:induction false} ExtractPreservesMeaning(
    e: Expr, c: nat, before: Context, after: Context, added: set<string>, ops: Primitives, win: WindowCall -> Value)
    requires Extends(before, after, added, ops) && Avoids(e, added) && Bound(Extract(e, c).calls, after, added, win)
    ensures Eval(Extract(e, c).out, after, ops, Unanswered()) == Eval(e, before, ops, Answered(win))
    decreases e, 1
  {
    match e
    case BinaryOp(_, _, _) => ExtractBinaryPreservesMeaning(e, c, before, after, added, ops, win);
    case UnaryOp(_, operand) => ExtractPreservesMeaning(operand, c, before, after, added, ops, win);
    case Function(_, _, _) => ExtractListPreservesMeaning(e, c, before, after, added, ops, win);
    case Cast(inner, _) => ExtractPreservesMeaning(inner, c, before, after, added, ops, win);
    case Case(_, _, _) => ExtractCasePreservesMeaning(e, c, before, after, added, ops, win);
    case ListOf(_) => ExtractListPreservesMeaning(e, c, before, after, added, ops, win);
    case _ => ExtractLeafPreservesMeaning(e, c, before, after, added, ops, win);
  }

  /** A source column called like a generated one is captured: of
      `win_func_0 + w OVER (..)`, with `x` in the column and `y` the call's value,
      the rewritten expression computes `y + y`. */
  lemma {:induction false} CapturedColumn(w: WindowCall, x: int, y: int, before: Context, ops: Primitives, win: WindowCall -> Value)
    requires Name(0) in before.columns && before.columns[Name(0)] == Integer(x) && win(w) == Integer(y)
    requires forall a, b :: ops.binary(Add, Integer(a), Integer(b)) == Some(Integer(a + b))
    ensures var e := BinaryOp(Column(None, Name(0)), Add, Window(w));
      var after := before.(columns := before.columns[Name(0) := Integer(y)]);
      && Bound(Extract(e, 0).calls, after, {Name(0)}, win)
      && Eval(e, before, ops, Answered(win)) == Some(Integer(x + y))
      && Eval(Extract(e, 0).out, after, ops, Unanswered()) == Some(Integer(y + y))
  {
    var column := Column(None, Name(0));
    assert Extract(column, 0) == Extraction([], column, 0);
    assert Extract(Window(w), 0) == Extraction([(Name(0), w)], column, 1);
    assert Extract(BinaryOp(column, Add, Window(w)), 0).calls == [] + [(Name(0), w)];
  }

  predicate Leaf(e: Expr) {
    !e.BinaryOp? && !e.UnaryOp? && !e.Function? && !e.Cast? && !e.Case? && !e.ListOf?
  }

  lemma {:induction false} ExtractLeafPreservesMeaning(
    e: Expr, c: nat, before: Context, after: Context, added: set<string>, ops: Primitives, win: WindowCall -> Value)
    requires Extends(before, after, added, ops) && Avoids(e, added) && Bound(Extract(e, c).calls, after, added, win)
    requires Leaf(e)
    ensures Eval(Extract(e, c).out, after, ops, Unanswered()) == Eval(e, before, ops, Answered(win))
  {
    if e.Column? { ResolveAgrees(e.table, e.name, before, after, added, ops); }
    if e.Window? { assert Extract(e, c).calls[0] == (Name(c), e.call); }
  }

  lemma {:induction false} ExtractListPreservesMeaning(
    e: Expr, c: nat, before: Context, after: Context, added: set<string>, ops: Primitives, win: WindowCall -> Value)
    requires Extends(before, after, added, ops) && Avoids(e, added) && Bound(Extract(e, c).calls, after, added, win)
    requires e.Function? || e.ListOf?
    ensures Eval(Extract(e, c).out, after, ops, Unanswered()) == Eval(e, before, ops, Answered(win))
    decreases e, 0
  {
    if e.Function? {
      ExtractAllPreservesMeaning(e.args, c, before, after, added, ops, win);
    } else {
      ExtractAllPreservesMeaning(e.items, c, before, after, added, ops, win);
    }
  }

  lemma {:induction false} ExtractBinaryPreservesMeaning(
    e: Expr, c: nat, before: Context, after: Context, added: set<string>, ops: Primitives, win: WindowCall -> Value)
    requires Extends(before, after, added, ops) && Avoids(e, added) && Bound(Extract(e, c).calls, after, added, win)
    requires e.BinaryOp?
    ensures Eval(Extract(e, c).out, after, ops, Unanswered()) == Eval(e, before, ops, Answered(win))
    decreases e, 0
  {
    var l := Extract(e.left, c);
    var r := Extract(e.right, l.next);
    BoundSplit(l.calls, r.calls, after, added, win);
    ExtractPreservesMeaning(e.left, c, before, after, added, ops, win);
    ExtractPreservesMeaning(e.right, l.next, before, after, added, ops, win);
  }

  lemma {:induction false} ExtractCasePreservesMeaning(
    e: Expr, c: nat, before: Context, after: Context, added: set<string>, ops: Primitives, win: WindowCall -> Value)
    requires Extends(before, after, added, ops) && Avoids(e, added) && Bound(Extract(e, c).calls, after, added, win)
    requires e.Case?
    ensures Eval(Extract(e, c).out, after, ops, Unanswered()) == Eval(e, before, ops, Answered(win))
    decreases e, 0
  {
    var Case(base, branches, otherwise) := e;
    var b := ExtractOption(base, c);
    var bs := ExtractBranches(branches, b.next);
    var o := ExtractOption(otherwise, bs.next);
    BoundSplit(b.calls + bs.calls, o.calls, after, added, win);
    BoundSplit(b.calls, bs.calls, after, added, win);
    ExtractOptionPreservesMeaning(base, c, before, after, added, ops, win);
    ExtractOptionPreservesMeaning(otherwise, bs.next, before, after, added, ops, win);
    var v := EvalOption(base, before, ops, Answered(win));
    ExtractBranchesPreservesMeaning(
      if v.Some? then v.value else None, branches, b.next, before, after, added, ops, win);
  }

  lemma {:induction false} BoundSplit(xs: seq<Named>, ys: seq<Named>, after: Context, added: set<string>, win: WindowCall -> Value)
    requires Bound(xs + ys, after, added, win)
    ensures Bound(xs, after, added, win) && Bound(ys, after, added, win)
  {
    forall i | 0 <= i < |ys|
      ensures ys[i].0 in added && ys[i].0 in after.columns && after.columns[ys[i].0] == win(ys[i].1)
    {
      assert (xs + ys)[|xs| + i] == ys[i];
    }
    forall i | 0 <= i < |xs|
      ensures xs[i].0 in added && xs[i].0 in after.columns && after.columns[xs[i].0] == win(xs[i].1)
    {
      assert (xs + ys)[i] == xs[i];
    }
  }

  lemma {:induction false} ExtractOptionPreservesMeaning(
    e: Option<Expr>, c: nat, before: Context, after: Context, added: set<string>, ops: Primitives, win: WindowCall -> Value)
    requires Extends(before, after, added, ops) && Bound(ExtractOption(e, c).calls, after, added, win)
    requires e.Some? ==> Avoids(e.value, added)
    ensures EvalOption(ExtractOption(e, c).out, after, ops, Unanswered()) == EvalOption(e, before, ops, Answered(win))
    decreases e
  {
    if e.Some? { ExtractPreservesMeaning(e.value, c, before, after, added, ops, win); }
  }

  lemma {:induction false} ExtractAllPreservesMeaning(
    es: seq<Expr>, c: nat, before: Context, after: Context, added: set<string>, ops: Primitives, win: WindowCall -> Value)
    requires Extends(before, after, added, ops) && Bound(ExtractAll(es, c).calls, after, added, win)
    requires forall k | 0 <= k < |es| :: Avoids(es[k], added)
    ensures EvalAll(ExtractAll(es, c).out, after, ops, Unanswered()) == EvalAll(es, before, ops, Answered(win))
    decreases es
  {
    if es != [] {
      var x := Extract(es[0], c);
      var rest := ExtractAll(es[1..], x.next);
      BoundSplit(x.calls, rest.calls, after, added, win);
      ExtractPreservesMeaning(es[0], c, before, after, added, ops, win);
      ExtractAllPreservesMeaning(es[1..], x.next, before, after, added, ops, win);
      assert ExtractAll(es, c).out[1..] == rest.out;
    }
  }

  lemma {:induction false} ExtractBranchesPreservesMeaning(
    base: Option<Value>, bs: seq<Branch>, c: nat,
    before: Context, after: Context, added: set<string>, ops: Primitives, win: WindowCall -> Value)
    requires Extends(before, after, added, ops) && Bound(ExtractBranches(bs, c).calls, after, added, win)
    requires forall k | 0 <= k < |bs| :: AvoidsBranch(bs[k], added)
    ensures EvalBranches(base, ExtractBranches(bs, c).out, after, ops, Unanswered())
         == EvalBranches(base, bs, before, ops, Answered(win))
    decreases bs
  {
    if bs != [] {
      var b := bs[0];
      assert bs decreases to b;
      assert AvoidsBranch(b, added);
      var x := Extract(b.condition, c);
      var y := Extract(b.result, x.next);
      var rest := ExtractBranches(bs[1..], y.next);
      BoundSplit(x.calls + y.calls, rest.calls, after, added, win);
      BoundSplit(x.calls, y.calls, after, added, win);
      ExtractPreservesMeaning(b.condition, c, before, after, added, ops, win);
      ExtractPreservesMeaning(b.result, x.next, before, after, added, ops, win);
      ExtractBranchesPreservesMeaning(base, bs[1..], y.next, before, after, added, ops, win);
      assert ExtractBranches(bs, c).out[1..] == rest.out;
    }
  }

  // ----- extraction as it runs: a counter and growing lists -----

  method ExtractExpression(e: Expr, c: nat) returns (calls: seq<Named>, out: Expr, next: nat)
    ensures Extraction(calls, out, next) == Extract(e, c)
    decreases e, 0
  {
    match e
    case Window(call) =>
      calls, out, next := [(Name(c), call)], Column(None, Name(c)), c + 1;
    case BinaryOp(left, op, right) =>
      var leftCalls, l, mid := ExtractExpression(left, c);
      var rightCalls, r, n := ExtractExpression(right, mid);
      calls, out, next := leftCalls + rightCalls, BinaryOp(l, op, r), n;
    case UnaryOp(uop, operand) =>
      var cs, x, n := ExtractExpression(operand, c);
      calls, out, next := cs, UnaryOp(uop, x), n;
    case Function(fn, args, distinct) =>
      var cs, xs, n := ExtractList(args, c);
      calls, out, next := cs, Function(fn, xs, distinct), n;
    case Cast(inner, target) =>
      var cs, x, n := ExtractExpression(inner, c);
      calls, out, next := cs, Cast(x, target), n;
    case Case(base, branches, otherwise) =>
      var baseCalls, b, n0 := ExtractOptional(base, c);
      var branchCalls, bs, n1 := ExtractCases(branches, n0);
      var otherCalls, o, n2 := ExtractOptional(otherwise, n1);
      calls, out, next := baseCalls + branchCalls + otherCalls, Case(b, bs, o), n2;
    case ListOf(items) =>
      var cs, xs, n := ExtractList(items, c);
      calls, out, next := cs, ListOf(xs), n;
    case _ =>
      calls, out, next := [], e, c;
  }

  method ExtractOptional(e: Option<Expr>, c: nat) returns (calls: seq<Named>, out: Option<Expr>, next: nat)
    ensures Extraction(calls, out, next) == ExtractOption(e, c)
    decreases e, 1
  {
    calls, out, next := [], None, c;
    if e.Some? {
      var cs, x, n := ExtractExpression(e.value, c);
      calls, out, next := cs, Some(x), n;
    }
  }

  /** The whole is what is already extracted, followed by what remains. */
  predicate Resumes<T(==)>(whole: Extraction<seq<T>>, calls: seq<Named>, outs: seq<T>, rest: Extraction<seq<T>>) {
    whole.calls == calls + rest.calls && whole.out == outs + rest.out && whole.next == rest.next
  }

  lemma {:induction false} ResumesStep<T>(
    whole: Extraction<seq<T>>, calls: seq<Named>, outs: seq<T>, rest: Extraction<seq<T>>,
    more: seq<Named>, x: T, left: Extraction<seq<T>>)
    requires Resumes(whole, calls, outs, rest)
    requires rest == Extraction(more + left.calls, [x] + left.out, left.next)
    ensures Resumes(whole, calls + more, outs + [x], left)
  {
  }

  method ExtractList(es: seq<Expr>, c: nat) returns (calls: seq<Named>, outs: seq<Expr>, next: nat)
    ensures Extraction(calls, outs, next) == ExtractAll(es, c)
    decreases es, 1
  {
    calls, outs, next := [], [], c;
    for i := 0 to |es|
      invariant Resumes(ExtractAll(es, c), calls, outs, ExtractAll(es[i..], next))
    {
      var cs, x, n := ExtractExpression(es[i], next);
      assert es[i..][0] == es[i] && es[i..][1..] == es[i + 1..];
      ResumesStep(ExtractAll(es, c), calls, outs, ExtractAll(es[i..], next), cs, x, ExtractAll(es[i + 1..], n));
      calls, outs, next := calls + cs, outs + [x], n;
    }
    assert calls + [] == calls && outs + [] == outs;
  }

  method ExtractCases(bs: seq<Branch>, c: nat) returns (calls: seq<Named>, outs: seq<Branch>, next: nat)
    ensures Extraction(calls, outs, next) == ExtractBranches(bs, c)
    decreases bs, 1
  {
    calls, outs, next := [], [], c;
    for i := 0 to |bs|
      invariant Resumes(ExtractBranches(bs, c), calls, outs, ExtractBranches(bs[i..], next))
    {
      var b := bs[i];
      assert bs decreases to b;
      var conditionCalls, x, mid := ExtractExpression(b.condition, next);
      var resultCalls, y, n := ExtractExpression(b.result, mid);
      assert bs[i..][0] == b && bs[i..][1..] == bs[i + 1..];
      ResumesStep(ExtractBranches(bs, c), calls, outs, ExtractBranches(bs[i..], next),
                  conditionCalls + resultCalls, Branch(x, y), ExtractBranches(bs[i + 1..], n));
      calls, outs, next := calls + (conditionCalls + resultCalls), outs + [Branch(x, y)], n;
    }
    assert calls + [] == calls && outs + [] == outs;
  }

  // ----- detection -----

  /** A window call occurs inside some subquery of the expression. */
  predicate InSubquery(e: Expr)
    decreases e
  {
    match e
    case BinaryOp(left, _, right) => InSubquery(left) || InSubquery(right)
    case UnaryOp(_, operand) => InSubquery(operand)
    case Function(_, args, _) => exists k | 0 <= k < |args| :: InSubquery(args[k])
    case Cast(inner, _) => InSubquery(inner)
    case Case(base, branches, otherwise) =>
      || (base.Some? && InSubquery(base.value))
      || (exists k | 0 <= k < |branches| :: InSubqueryBranch(branches[k]))
      || (otherwise.Some? && InSubquery(otherwise.value))
    case ListOf(items) => exists k | 0 <= k < |items| :: InSubquery(items[k])
    case Exists(_, _, hasWindow) => hasWindow
    case Subquery(_, hasWindow) => hasWindow
    case _ => false
  }

  predicate InSubqueryBranch(b: Branch)
    decreases b
  {
    InSubquery(b.condition) || InSubquery(b.result)
  }

  ghost predicate AnyContains(es: seq<Expr>) {
    exists k | 0 <= k < |es| :: Contains(es[k])
  }

  ghost predicate AnyInSubquery(es: seq<Expr>) {
    exists k | 0 <= k < |es| :: InSubquery(es[k])
  }

  ghost predicate AnyBranchContains(bs: seq<Branch>) {
    exists k | 0 <= k < |bs| :: ContainsBranch(bs[k])
  }

  ghost predicate AnyBranchInSubquery(bs: seq<Branch>) {
    exists k | 0 <= k < |bs| :: InSubqueryBranch(bs[k])
  }

  lemma {:induction false} AnySplit(es: seq<Expr>)
    requires es != []
    ensures AnyContains(es) <==> Contains(es[0]) || AnyContains(es[1..])
    ensures AnyInSubquery(es) <==> InSubquery(es[0]) || AnyInSubquery(es[1..])
  {
    assert forall k | 1 <= k < |es| :: es[k] == es[1..][k - 1];
    assert forall k | 0 <= k < |es| - 1 :: es[1..][k] == es[k + 1];
  }

  lemma {:induction false} AnyBranchSplit(bs: seq<Branch>)
    requires bs != []
    ensures AnyBranchContains(bs) <==> ContainsBranch(bs[0]) || AnyBranchContains(bs[1..])
    ensures AnyBranchInSubquery(bs) <==> InSubqueryBranch(bs[0]) || AnyBranchInSubquery(bs[1..])
  {
    assert forall k | 1 <= k < |bs| :: bs[k] == bs[1..][k - 1];
    assert forall k | 0 <= k < |bs| - 1 :: bs[1..][k] == bs[k + 1];
  }

  /** Detection finds a window call exactly when extraction would list one or a
      subquery holds one. */
  lemma {:induction false} ContainsMeans(e: Expr)
    ensures Contains(e) <==> Calls(e) != [] || InSubquery(e)
    decreases e, 2
  {
    match e
    case BinaryOp(left, _, right) => ContainsMeans(left); ContainsMeans(right);
    case UnaryOp(_, operand) => ContainsMeans(operand);
    case Function(_, args, _) => ContainsMeansAll(args);
    case Cast(inner, _) => ContainsMeans(inner);
    case Case(_, _, _) => ContainsMeansCase(e);
    case ListOf(items) => ContainsMeansAll(items);
    case _ =>
  }

  lemma {:induction false} ContainsMeansCase(e: Expr)
    requires e.Case?
    ensures Contains(e) <==> Calls(e) != [] || InSubquery(e)
    decreases e, 1
  {
    if e.base.Some? { ContainsMeans(e.base.value); }
    ContainsMeansBranches(e.branches);
    if e.otherwise.Some? { ContainsMeans(e.otherwise.value); }
  }

  lemma {:induction false} ContainsMeansAll(es: seq<Expr>)
    ensures AnyContains(es) <==> CallsAll(es) != [] || AnyInSubquery(es)
    decreases es, 1
  {
    if es != [] {
      AnySplit(es);
      ContainsMeans(es[0]);
      ContainsMeansAll(es[1..]);
    }
  }

  lemma {:induction false} ContainsMeansBranches(bs: seq<Branch>)
    ensures AnyBranchContains(bs) <==> CallsBranches(bs) != [] || AnyBranchInSubquery(bs)
    decreases bs, 1
  {
    if bs != [] {
      var b := bs[0];
      assert bs decreases to b;
      AnyBranchSplit(bs);
      ContainsMeans(b.condition);
      ContainsMeans(b.result);
      ContainsMeansBranches(bs[1..]);
    }
  }

  // ----- renaming -----

  function ReplaceColumn(e: Expr, from: string, into: string): Expr
    decreases e
  {
    match e
    case Column(table, name) => if name == from then Column(table, into) else e
    case BinaryOp(left, op, right) => BinaryOp(ReplaceColumn(left, from, into), op, ReplaceColumn(right, from, into))
    case UnaryOp(uop, operand) => UnaryOp(uop, ReplaceColumn(operand, from, into))
    case Function(fn, args, distinct) =>
      Function(fn, seq(|args|, i requires 0 <= i < |args| => ReplaceColumn(args[i], from, into)), distinct)
    case Cast(inner, target) => Cast(ReplaceColumn(inner, from, into), target)
    case Case(base, branches, otherwise) =>
      Case(if base.None? then None else Some(ReplaceColumn(base.value, from, into)),
           seq(|branches|, i requires 0 <= i < |branches| => ReplaceInBranch(branches[i], from, into)),
           if otherwise.None? then None else Some(ReplaceColumn(otherwise.value, from, into)))
    case ListOf(items) => ListOf(seq(|items|, i requires 0 <= i < |items| => ReplaceColumn(items[i], from, into)))
    case _ => e
  }

  function ReplaceInBranch(b: Branch, from: string, into: string): Branch
    decreases b
  {
    Branch(ReplaceColumn(b.condition, from, into), ReplaceColumn(b.result, from, into))
  }

  /** In `after` the column `from` goes by the name `into`; nothing else changes. */
  ghost predicate GoesBy(before: Context, after: Context, from: string, into: string, ops: Primitives) {
    && (forall table, name :: Resolve(after, table, if name == from then into else name) == Resolve(before, table, name))
    && (forall id, flag :: ops.subquery(id, flag, before.columns) == ops.subquery(id, flag, after.columns))
    && (forall id, flag :: ops.existence(id, flag, before.columns) == ops.existence(id, flag, after.columns))
  }

  /** Renaming a column in an expression and in the context leaves its value. */
  lemma {:induction false} ReplaceColumnMeans(e: Expr, before: Context, after: Context, from: string, into: string, ops: Primitives, win: Windows)
    requires GoesBy(before, after, from, into, ops)
    ensures Eval(ReplaceColumn(e, from, into), after, ops, win) == Eval(e, before, ops, win)
    decreases e, 1
  {
    match e
    case BinaryOp(_, _, _) => ReplaceInBinaryMeans(e, before, after, from, into, ops, win);
    case UnaryOp(_, operand) => ReplaceColumnMeans(operand, before, after, from, into, ops, win);
    case Function(_, args, _) => ReplaceColumnsMean(args, before, after, from, into, ops, win);
    case Cast(inner, _) => ReplaceColumnMeans(inner, before, after, from, into, ops, win);
    case Case(_, _, _) => ReplaceInCaseMeans(e, before, after, from, into, ops, win);
    case ListOf(items) => ReplaceColumnsMean(items, before, after, from, into, ops, win);
    case _ =>
  }

  lemma {:induction false} ReplaceInBinaryMeans(
    e: Expr, before: Context, after: Context, from: string, into: string, ops: Primitives, win: Windows)
    requires e.BinaryOp? && GoesBy(before, after, from, into, ops)
    ensures Eval(ReplaceColumn(e, from, into), after, ops, win) == Eval(e, before, ops, win)
    decreases e, 0
  {
    ReplaceColumnMeans(e.left, before, after, from, into, ops, win);
    ReplaceColumnMeans(e.right, before, after, from, into, ops, win);
  }

  lemma {:induction false} ReplaceColumnsMean(
    es: seq<Expr>, before: Context, after: Context, from: string, into: string, ops: Primitives, win: Windows)
    requires GoesBy(before, after, from, into, ops)
    ensures EvalAll(seq(|es|, i requires 0 <= i < |es| => ReplaceColumn(es[i], from, into)), after, ops, win) == EvalAll(es, before, ops, win)
    decreases es
  {
    if es != [] {
      var out := seq(|es|, i requires 0 <= i < |es| => ReplaceColumn(es[i], from, into));
      var rest := es[1..];
      ReplaceColumnMeans(es[0], before, after, from, into, ops, win);
      ReplaceColumnsMean(rest, before, after, from, into, ops, win);
      assert out[1..] == seq(|rest|, i requires 0 <= i < |rest| => ReplaceColumn(rest[i], from, into));
    }
  }

  lemma {:induction false} ReplaceInCaseMeans(
    e: Expr, before: Context, after: Context, from: string, into: string, ops: Primitives, win: Windows)
    requires e.Case? && GoesBy(before, after, from, into, ops)
    ensures Eval(ReplaceColumn(e, from, into), after, ops, win) == Eval(e, before, ops, win)
    decreases e, 0
  {
    if e.base.Some? { ReplaceColumnMeans(e.base.value, before, after, from, into, ops, win); }
    if e.otherwise.Some? { ReplaceColumnMeans(e.otherwise.value, before, after, from, into, ops, win); }
    var v := EvalOption(e.base, before, ops, win);
    ReplaceInBranchesMeans(if v.Some? then v.value else None, e.branches, before, after, from, into, ops, win);
  }

  lemma {:induction false} ReplaceInBranchesMeans(
    base: Option<Value>, bs: seq<Branch>, before: Context, after: Context, from: string, into: string, ops: Primitives, win: Windows)
    requires GoesBy(before, after, from, into, ops)
    ensures EvalBranches(base, seq(|bs|, i requires 0 <= i < |bs| => ReplaceInBranch(bs[i], from, into)), after, ops, win)
         == EvalBranches(base, bs, before, ops, win)
    decreases bs
  {
    if bs != [] {
      var b, rest := bs[0], bs[1..];
      assert bs decreases to b;
      var out := seq(|bs|, i requires 0 <= i < |bs| => ReplaceInBranch(bs[i], from, into));
      ReplaceColumnMeans(b.condition, before, after, from, into, ops, win);
      ReplaceColumnMeans(b.result, before, after, from, into, ops, win);
      ReplaceInBranchesMeans(base, rest, before, after, from, into, ops, win);
      assert out[1..] == seq(|rest|, i requires 0 <= i < |rest| => ReplaceInBranch(rest[i], from, into));
    }
  }

  function Renamed(e: Expr, calls: seq<Named>, aliases: map<string, string>): Expr
    decreases |calls|
  {
    if calls == [] then e
    else
      var n := calls[0].0;
      Renamed(if n in aliases then ReplaceColumn(e, n, aliases[n]) else e, calls[1..], aliases)
  }

  method RenameGenerated(e: Expr, calls: seq<Named>, aliases: map<string, string>) returns (out: Expr)
    ensures out == Renamed(e, calls, aliases)
  {
    out := e;
    for i := 0 to |calls|
      invariant Renamed(e, calls, aliases) == Renamed(out, calls[i..], aliases)
    {
      assert calls[i..][0] == calls[i] && calls[i..][1..] == calls[i + 1..];
      if calls[i].0 in aliases {
        out := ReplaceColumn(out, calls[i].0, aliases[calls[i].0]);
      }
    }
  }

  lemma {:induction false} RenamedUnknown(e: Expr, calls: seq<Named>, aliases: map<string, string>)
    requires forall i | 0 <= i < |calls| :: calls[i].0 !in aliases
    ensures Renamed(e, calls, aliases) == e
    decreases |calls|
  {
    if calls != [] { RenamedUnknown(e, calls[1..], aliases); }
  }

  // ----- naming the window calls of several projections -----

  /** A window call, with its alias if it is a projection of its own. */
  type Slot = (Option<string>, WindowCall)

  function SlotName(slot: Slot, k: nat): string {
    if slot.0.Some? then slot.0.value else Name(k)
  }

  function NameSlots(slots: seq<Slot>, c: nat): seq<Named> {
    seq(|slots|, k requires 0 <= k < |slots| => (SlotName(slots[k], c + k), slots[k].1))
  }

  /** The counter when list `i` is reached. */
  function CounterAt(lists: seq<seq<Slot>>, i: nat): nat
    requires i <= |lists|
  {
    if i == 0 then 0 else CounterAt(lists, i - 1) + |lists[i - 1]|
  }

  /** All slots of the first `i` lists, from left to right. */
  function SlotsTo(lists: seq<seq<Slot>>, i: nat): seq<Slot>
    requires i <= |lists|
  {
    if i == 0 then [] else SlotsTo(lists, i - 1) + lists[i - 1]
  }

  /** What the window step computes: the direct calls under their aliases, the
      others under generated names. */
  function WindowsTo(lists: seq<seq<Slot>>, i: nat): seq<Named>
    requires i <= |lists|
  {
    if i == 0 then [] else WindowsTo(lists, i - 1) + NameSlots(lists[i - 1], CounterAt(lists, i - 1))
  }

  lemma {:induction false} CounterRises(lists: seq<seq<Slot>>, i: nat, j: nat)
    requires i <= j <= |lists|
    ensures CounterAt(lists, i) <= CounterAt(lists, j)
    decreases j
  {
    if i != j { CounterRises(lists, i, j - 1); }
  }

  lemma {:induction false} WindowsGrow(lists: seq<seq<Slot>>, i: nat, j: nat)
    requires i <= j <= |lists|
    ensures WindowsTo(lists, i) <= WindowsTo(lists, j)
    decreases j
  {
    if i != j { WindowsGrow(lists, i, j - 1); }
  }

  lemma {:induction false} NameSlotsAppend(xs: seq<Slot>, ys: seq<Slot>, c: nat)
    ensures NameSlots(xs + ys, c) == NameSlots(xs, c) + NameSlots(ys, c + |xs|)
  {
  }

  /** The outputs are the window calls, left to right: the `k`-th has its alias if
      it is a direct call and the `k`-th generated name if not. */
  lemma {:induction false} OutputsAreSlots(lists: seq<seq<Slot>>, i: nat)
    requires i <= |lists|
    ensures WindowsTo(lists, i) == NameSlots(SlotsTo(lists, i), 0) && |SlotsTo(lists, i)| == CounterAt(lists, i)
  {
    if i != 0 {
      OutputsAreSlots(lists, i - 1);
      NameSlotsAppend(SlotsTo(lists, i - 1), lists[i - 1], 0);
    }
  }

  /** Two outputs share a name exactly when both are direct calls with one alias,
      or one is direct and its alias is the other's generated name. */
  lemma {:induction false} OutputNamesClashIff(lists: seq<seq<Slot>>, j: nat, k: nat)
    requires j < k < |SlotsTo(lists, |lists|)|
    ensures |WindowsTo(lists, |lists|)| == |SlotsTo(lists, |lists|)|
    ensures var slots, windows := SlotsTo(lists, |lists|), WindowsTo(lists, |lists|);
      windows[j].0 == windows[k].0 <==>
        match (slots[j].0, slots[k].0)
        case (Some(a), Some(b)) => a == b
        case (Some(a), None) => a == Name(k)
        case (None, Some(b)) => b == Name(j)
        case (None, None) => false
  {
    OutputsAreSlots(lists, |lists|);
    NamesDistinct(j, k);
  }

  // ----- a whole projection list -----

  type Projection = (string, Expr)

  /** The window calls of a projection; a direct call has the projection's alias. */
  function SlotsIn(p: Projection): seq<Slot> {
    var alias := if p.1.Window? then Some(p.0) else None;
    seq(|Calls(p.1)|, k requires 0 <= k < |Calls(p.1)| => (alias, Calls(p.1)[k]))
  }

  function SlotsOf(ps: seq<Projection>): (lists: seq<seq<Slot>>)
    ensures |lists| == |ps| && forall k | 0 <= k < |ps| :: lists[k] == SlotsIn(ps[k])
  {
    seq(|ps|, k requires 0 <= k < |ps| => SlotsIn(ps[k]))
  }

  /** What one projection contributes: its alias when it is a direct call, its base
      columns and its computed column. */
  function AliasPart(p: Projection, c: nat): map<string, string> {
    if p.1.Window? then map[Name(c) := p.0] else map[]
  }

  function BasePart(p: Projection, stars: seq<string>): seq<Projection> {
    if Contains(p.1) then []
    else if p.1.Star? then seq(|stars|, i requires 0 <= i < |stars| => (stars[i], Column(None, stars[i])))
    else [p]
  }

  function ComputedPart(p: Projection, c: nat): seq<Projection> {
    if Contains(p.1) && !p.1.Window? then [(p.0, Extract(p.1, c).out)] else []
  }

  /** The aliases of the direct window calls among the first `i` projections, under
      the names the first pass gives them. */
  function AliasesTo(ps: seq<Projection>, lists: seq<seq<Slot>>, i: nat): map<string, string>
    requires i <= |ps| == |lists|
  {
    if i == 0 then map[] else AliasesTo(ps, lists, i - 1) + AliasPart(ps[i - 1], CounterAt(lists, i - 1))
  }

  function AliasesOf(ps: seq<Projection>): map<string, string> {
    AliasesTo(ps, SlotsOf(ps), |ps|)
  }

  function BaseTo(ps: seq<Projection>, stars: seq<string>, i: nat): seq<Projection>
    requires i <= |ps|
  {
    if i == 0 then [] else BaseTo(ps, stars, i - 1) + BasePart(ps[i - 1], stars)
  }

  function ComputedTo(ps: seq<Projection>, lists: seq<seq<Slot>>, i: nat): seq<Projection>
    requires i <= |ps| == |lists|
  {
    if i == 0 then [] else ComputedTo(ps, lists, i - 1) + ComputedPart(ps[i - 1], CounterAt(lists, i - 1))
  }

  function WindowsOf(ps: seq<Projection>): seq<Named> {
    WindowsTo(SlotsOf(ps), |ps|)
  }

  function ComputedOf(ps: seq<Projection>): seq<Projection> {
    ComputedTo(ps, SlotsOf(ps), |ps|)
  }

  /** A name used inside a computed column is never the name of a direct call. */
  lemma {:induction false} ComputedNameIsNoAlias(ps: seq<Projection>, lists: seq<seq<Slot>>, i: nat, j: nat, n: nat)
    requires i <= |ps| == |lists| && j < |ps| && !ps[j].1.Window?
    requires forall k | 0 <= k < |ps| && ps[k].1.Window? :: |lists[k]| == 1
    requires CounterAt(lists, j) <= n < CounterAt(lists, j + 1)
    ensures Name(n) !in AliasesTo(ps, lists, i)
    decreases i
  {
    if i != 0 {
      ComputedNameIsNoAlias(ps, lists, i - 1, j, n);
      NamesDistinct(CounterAt(lists, i - 1), n);
      if i <= j { CounterRises(lists, i, j); } else if j + 1 < i { CounterRises(lists, j + 1, i - 1); }
    }
  }

  lemma {:induction false} SlotCounts(ps: seq<Projection>)
    ensures forall k | 0 <= k < |ps| :: |SlotsOf(ps)[k]| == |Calls(ps[k].1)| && (ps[k].1.Window? ==> |SlotsOf(ps)[k]| == 1)
  {
  }

  /** Both passes count alike, so the rename step changes no computed column. */
  lemma {:induction false} RenameIsIdentity(ps: seq<Projection>, i: nat, e: Expr)
    requires i < |ps| && !ps[i].1.Window?
    ensures Renamed(e, Extract(ps[i].1, CounterAt(SlotsOf(ps), i)).calls, AliasesOf(ps)) == e
  {
    var c := CounterAt(SlotsOf(ps), i);
    var calls := Extract(ps[i].1, c).calls;
    ExtractListsCalls(ps[i].1, c);
    SlotCounts(ps);
    LabelsAreNoAliases(ps, SlotsOf(ps), i, Calls(ps[i].1), calls);
    RenamedUnknown(e, calls, AliasesOf(ps));
  }

  lemma {:induction false} LabelsAreNoAliases(ps: seq<Projection>, lists: seq<seq<Slot>>, i: nat, ws: seq<WindowCall>, calls: seq<Named>)
    requires i < |ps| == |lists| && !ps[i].1.Window? && |lists[i]| == |ws| && calls == Label(ws, CounterAt(lists, i))
    requires forall k | 0 <= k < |ps| && ps[k].1.Window? :: |lists[k]| == 1
    ensures forall k | 0 <= k < |calls| :: calls[k].0 !in AliasesTo(ps, lists, |ps|)
  {
    forall k | 0 <= k < |calls| ensures calls[k].0 !in AliasesTo(ps, lists, |ps|) {
      ComputedNameIsNoAlias(ps, lists, |ps|, i, CounterAt(lists, i) + k);
    }
  }

  /** First pass over one projection. */
  method AliasOne(p: Projection, counter: nat, aliases: map<string, string>)
    returns (more: map<string, string>, next: nat)
    ensures more == aliases + AliasPart(p, counter)
    ensures next == counter + |SlotsIn(p)|
  {
    more, next := aliases, counter;
    ContainsMeans(p.1);
    if Contains(p.1) {
      ExtractListsCalls(p.1, counter);
      var calls, _, n := ExtractExpression(p.1, counter);
      if p.1.Window? {
        for k := 0 to |calls|
          invariant more == if k == 0 then aliases else aliases + AliasPart(p, counter)
        {
          more := more[calls[k].0 := p.0];
        }
      }
      next := n;
    }
  }

  method CollectAliases(ps: seq<Projection>) returns (aliases: map<string, string>)
    ensures aliases == AliasesOf(ps)
  {
    ghost var lists := SlotsOf(ps);
    var counter: nat := 0;
    aliases := map[];
    for i := 0 to |ps|
      invariant counter == CounterAt(lists, i) && aliases == AliasesTo(ps, lists, i)
    {
      AliasesNext(ps, lists, i);
      aliases, counter := AliasOne(ps[i], counter, aliases);
    }
  }

  lemma {:induction false} AliasesNext(ps: seq<Projection>, lists: seq<seq<Slot>>, i: nat)
    requires i < |ps| == |lists|
    ensures AliasesTo(ps, lists, i + 1) == AliasesTo(ps, lists, i) + AliasPart(ps[i], CounterAt(lists, i))
    ensures CounterAt(lists, i + 1) == CounterAt(lists, i) + |lists[i]|
  {
  }

  lemma {:induction false} PlanNext(ps: seq<Projection>, lists: seq<seq<Slot>>, stars: seq<string>, i: nat)
    requires i < |ps| == |lists|
    ensures BaseTo(ps, stars, i + 1) == BaseTo(ps, stars, i) + BasePart(ps[i], stars)
    ensures WindowsTo(lists, i + 1) == WindowsTo(lists, i) + NameSlots(lists[i], CounterAt(lists, i))
    ensures ComputedTo(ps, lists, i + 1) == ComputedTo(ps, lists, i) + ComputedPart(ps[i], CounterAt(lists, i))
    ensures CounterAt(lists, i + 1) == CounterAt(lists, i) + |lists[i]|
  {
  }

  lemma {:induction false} SlotsNamed(p: Projection, c: nat)
    ensures p.1.Window? ==> NameSlots(SlotsIn(p), c) == [(p.0, p.1.call)]
    ensures !p.1.Window? ==> NameSlots(SlotsIn(p), c) == Label(Calls(p.1), c)
  {
  }

  /** Second pass over one projection. */
  method PlanOne(ps: seq<Projection>, i: nat, counter: nat, aliases: map<string, string>, stars: seq<string>)
    returns (base: seq<Projection>, windows: seq<Named>, computed: seq<Projection>, next: nat)
    requires i < |ps| && counter == CounterAt(SlotsOf(ps), i) && aliases == AliasesOf(ps)
    ensures base == BasePart(ps[i], stars) && windows == NameSlots(SlotsIn(ps[i]), counter)
    ensures computed == ComputedPart(ps[i], counter) && next == counter + |SlotsIn(ps[i])|
  {
    var (name, e) := ps[i];
    base, windows, computed, next := [], [], [], counter;
    ContainsMeans(e);
    SlotsNamed(ps[i], counter);
    if Contains(e) {
      ExtractListsCalls(e, counter);
      var calls, out, n := ExtractExpression(e, counter);
      if e.Window? {
        windows := seq(|calls|, k requires 0 <= k < |calls| => (name, calls[k].1));
      } else {
        RenameIsIdentity(ps, i, out);
        var corrected := RenameGenerated(out, calls, aliases);
        windows, computed := calls, [(name, corrected)];
      }
      next := n;
    } else if e.Star? {
      base := seq(|stars|, k requires 0 <= k < |stars| => (stars[k], Column(None, stars[k])));
    } else {
      base := [(name, e)];
    }
  }

  // ----- where each projection goes -----

  /** How many base and computed columns the first `i` projections give. */
  ghost function BaseOffset(ps: seq<Projection>, stars: seq<string>, i: nat): nat
    requires i <= |ps|
  {
    if i == 0 then 0
    else BaseOffset(ps, stars, i - 1) + if Contains(ps[i - 1].1) then 0 else if ps[i - 1].1.Star? then |stars| else 1
  }

  ghost function ComputedOffset(ps: seq<Projection>, i: nat): nat
    requires i <= |ps|
  {
    if i == 0 then 0 else ComputedOffset(ps, i - 1) + if Contains(ps[i - 1].1) && !ps[i - 1].1.Window? then 1 else 0
  }

  /** From position `o` on, `base` holds what the projection gives: itself, or the
      listed columns if it is a star, or nothing if it has a window call. */
  ghost predicate BaseHolds(p: Projection, stars: seq<string>, base: seq<Projection>, o: nat) {
    !Contains(p.1) ==>
      if p.1.Star? then
        o + |stars| <= |base| && forall c | 0 <= c < |stars| :: base[o + c] == (stars[c], Column(None, stars[c]))
      else o < |base| && base[o] == p
  }

  /** From position `o` on, `windows` holds the projection's calls: a direct one
      under its alias, others under the generated names with these numbers. */
  ghost predicate WindowsHold(p: Projection, windows: seq<Named>, o: nat) {
    if p.1.Window? then o < |windows| && windows[o] == (p.0, p.1.call)
    else
      && o + |Calls(p.1)| <= |windows|
      && forall k | 0 <= k < |Calls(p.1)| :: windows[o + k] == (Name(o + k), Calls(p.1)[k])
  }

  /** At position `o`, `computed` holds the projection under its own name, with the
      calls numbered from `c` on replaced by columns. */
  ghost predicate ComputedHolds(p: Projection, computed: seq<Projection>, o: nat, c: nat) {
    Contains(p.1) && !p.1.Window? ==> o < |computed| && computed[o] == (p.0, Extract(p.1, c).out)
  }

  /** The three lists hold, in projection order, what every projection gives, and
      nothing else. */
  ghost predicate Planned(ps: seq<Projection>, stars: seq<string>, base: seq<Projection>, windows: seq<Named>, computed: seq<Projection>) {
    && |base| == BaseOffset(ps, stars, |ps|) && |windows| == CounterAt(SlotsOf(ps), |ps|) && |computed| == ComputedOffset(ps, |ps|)
    && forall i: nat {:trigger ps[i]} | i < |ps| ::
         && BaseHolds(ps[i], stars, base, BaseOffset(ps, stars, i))
         && WindowsHold(ps[i], windows, CounterAt(SlotsOf(ps), i))
         && ComputedHolds(ps[i], computed, ComputedOffset(ps, i), CounterAt(SlotsOf(ps), i))
  }

  lemma {:induction false} BaseSize(ps: seq<Projection>, stars: seq<string>, n: nat)
    requires n <= |ps|
    ensures |BaseTo(ps, stars, n)| == BaseOffset(ps, stars, n)
  {
    if n != 0 { BaseSize(ps, stars, n - 1); }
  }

  lemma {:induction false} StillPrefix(a: seq<Projection>, b: seq<Projection>, more: seq<Projection>)
    requires a <= b
    ensures a <= b + more
  {
  }

  lemma {:induction false} BaseGrows(ps: seq<Projection>, stars: seq<string>, i: nat, n: nat)
    requires i <= n <= |ps|
    ensures BaseTo(ps, stars, i) <= BaseTo(ps, stars, n)
    decreases n
  {
    if i != n {
      BaseGrows(ps, stars, i, n - 1);
      StillPrefix(BaseTo(ps, stars, i), BaseTo(ps, stars, n - 1), BasePart(ps[n - 1], stars));
    }
  }

  lemma {:induction false} BaseHoldsNow(p: Projection, stars: seq<string>, before: seq<Projection>, base: seq<Projection>)
    requires before + BasePart(p, stars) <= base
    ensures BaseHolds(p, stars, base, |before|)
  {
    var part := BasePart(p, stars);
    forall c | 0 <= c < |part| ensures base[|before| + c] == part[c] { assert (before + part)[|before| + c] == part[c]; }
  }

  lemma {:induction false} BaseHeld(ps: seq<Projection>, stars: seq<string>, i: nat)
    requires i < |ps|
    ensures BaseHolds(ps[i], stars, BaseTo(ps, stars, |ps|), BaseOffset(ps, stars, i))
  {
    BaseSize(ps, stars, i);
    BaseGrows(ps, stars, i + 1, |ps|);
    BaseHoldsNow(ps[i], stars, BaseTo(ps, stars, i), BaseTo(ps, stars, |ps|));
  }

  lemma {:induction false} ComputedSize(ps: seq<Projection>, lists: seq<seq<Slot>>, n: nat)
    requires n <= |ps| == |lists|
    ensures |ComputedTo(ps, lists, n)| == ComputedOffset(ps, n)
  {
    if n != 0 { ComputedSize(ps, lists, n - 1); }
  }

  lemma {:induction false} ComputedGrows(ps: seq<Projection>, lists: seq<seq<Slot>>, i: nat, n: nat)
    requires i <= n <= |ps| == |lists|
    ensures ComputedTo(ps, lists, i) <= ComputedTo(ps, lists, n)
    decreases n
  {
    if i != n {
      ComputedGrows(ps, lists, i, n - 1);
      StillPrefix(ComputedTo(ps, lists, i), ComputedTo(ps, lists, n - 1), ComputedPart(ps[n - 1], CounterAt(lists, n - 1)));
    }
  }

  lemma {:induction false} ComputedHoldsNow(p: Projection, before: seq<Projection>, computed: seq<Projection>, c: nat)
    requires before + ComputedPart(p, c) <= computed
    ensures ComputedHolds(p, computed, |before|, c)
  {
    if ComputedPart(p, c) != [] { assert (before + ComputedPart(p, c))[|before|] == ComputedPart(p, c)[0]; }
  }

  lemma {:induction false} ComputedHeld(ps: seq<Projection>, lists: seq<seq<Slot>>, i: nat)
    requires i < |ps| == |lists|
    ensures ComputedHolds(ps[i], ComputedTo(ps, lists, |ps|), ComputedOffset(ps, i), CounterAt(lists, i))
  {
    ComputedSize(ps, lists, i);
    ComputedGrows(ps, lists, i + 1, |ps|);
    ComputedHoldsNow(ps[i], ComputedTo(ps, lists, i), ComputedTo(ps, lists, |ps|), CounterAt(lists, i));
  }

  lemma {:induction false} WindowsSize(lists: seq<seq<Slot>>, n: nat)
    requires n <= |lists|
    ensures |WindowsTo(lists, n)| == CounterAt(lists, n)
  {
    if n != 0 { WindowsSize(lists, n - 1); }
  }

  lemma {:induction false} WindowsHoldNow(p: Projection, before: seq<Named>, windows: seq<Named>)
    requires before + NameSlots(SlotsIn(p), |before|) <= windows
    ensures WindowsHold(p, windows, |before|)
  {
    var part := NameSlots(SlotsIn(p), |before|);
    SlotsNamed(p, |before|);
    forall k | 0 <= k < |part| ensures windows[|before| + k] == part[k] { assert (before + part)[|before| + k] == part[k]; }
  }

  lemma {:induction false} WindowsHeld(ps: seq<Projection>, i: nat)
    requires i < |ps|
    ensures WindowsHold(ps[i], WindowsOf(ps), CounterAt(SlotsOf(ps), i))
  {
    WindowsHeldIn(ps[i], SlotsOf(ps), i);
  }

  lemma {:induction false} WindowsHeldIn(p: Projection, lists: seq<seq<Slot>>, i: nat)
    requires i < |lists| && lists[i] == SlotsIn(p)
    ensures WindowsHold(p, WindowsTo(lists, |lists|), CounterAt(lists, i))
  {
    WindowsSize(lists, i);
    WindowsGrow(lists, i + 1, |lists|);
    WindowsHoldNow(p, WindowsTo(lists, i), WindowsTo(lists, |lists|));
  }

  lemma {:induction false} AllPlanned(ps: seq<Projection>, stars: seq<string>)
    ensures Planned(ps, stars, BaseTo(ps, stars, |ps|), WindowsOf(ps), ComputedOf(ps))
  {
    BaseSize(ps, stars, |ps|);
    WindowsSize(SlotsOf(ps), |ps|);
    ComputedSize(ps, SlotsOf(ps), |ps|);
    forall i: nat | i < |ps|
      ensures BaseHolds(ps[i], stars, BaseTo(ps, stars, |ps|), BaseOffset(ps, stars, i))
      ensures WindowsHold(ps[i], WindowsOf(ps), CounterAt(SlotsOf(ps), i))
      ensures ComputedHolds(ps[i], ComputedOf(ps), ComputedOffset(ps, i), CounterAt(SlotsOf(ps), i))
    {
      BaseHeld(ps, stars, i);
      WindowsHeld(ps, i);
      ComputedHeld(ps, SlotsOf(ps), i);
    }
  }

  /** The two passes: aliases of direct calls first, then the plan. The result is
      stated without the alias map, which turns out to rename nothing. */
  method ExtractAndReplace(ps: seq<Projection>, stars: seq<string>)
    returns (base: seq<Projection>, windows: seq<Named>, computed: seq<Projection>)
    ensures base == BaseTo(ps, stars, |ps|) && windows == WindowsOf(ps) && computed == ComputedOf(ps)
    ensures Planned(ps, stars, base, windows, computed)
  {
    var aliases := CollectAliases(ps);
    ghost var lists := SlotsOf(ps);
    var counter: nat := 0;
    base, windows, computed := [], [], [];
    for i := 0 to |ps|
      invariant counter == CounterAt(lists, i) && base == BaseTo(ps, stars, i)
      invariant windows == WindowsTo(lists, i) && computed == ComputedTo(ps, lists, i)
    {
      PlanNext(ps, lists, stars, i);
      var b, w, x, n := PlanOne(ps, i, counter, aliases, stars);
      base, windows, computed, counter := base + b, windows + w, computed + x, n;
    }
    AllPlanned(ps, stars);
  }

  // ----- the whole pass -----

  lemma {:induction false} ComputedListed(ps: seq<Projection>, i: nat)
    requires i < |ps| && Contains(ps[i].1) && !ps[i].1.Window?
    ensures (ps[i].0, Extract(ps[i].1, CounterAt(SlotsOf(ps), i)).out) in ComputedOf(ps)
  {
    ComputedHeld(ps, SlotsOf(ps), i);
  }

  lemma {:induction false} BoundPrefix(xs: seq<Named>, ys: seq<Named>, after: Context, added: set<string>, win: WindowCall -> Value)
    requires xs <= ys && Bound(ys, after, added, win)
    ensures Bound(xs, after, added, win)
  {
    assert ys == xs + ys[|xs|..];
    BoundSplit(xs, ys[|xs|..], after, added, win);
  }

  lemma {:induction false} SlotsBound(lists: seq<seq<Slot>>, i: nat, after: Context, added: set<string>, win: WindowCall -> Value)
    requires i < |lists| && Bound(WindowsTo(lists, |lists|), after, added, win)
    ensures Bound(NameSlots(lists[i], CounterAt(lists, i)), after, added, win)
  {
    WindowsGrow(lists, i + 1, |lists|);
    BoundPrefix(WindowsTo(lists, i + 1), WindowsTo(lists, |lists|), after, added, win);
    BoundSplit(WindowsTo(lists, i), NameSlots(lists[i], CounterAt(lists, i)), after, added, win);
  }

  /** A computed column, evaluated after the window step without any window call,
      has the value of its projection. */
  lemma {:induction false} ComputedColumnMeaning(
    ps: seq<Projection>, i: nat,
    before: Context, after: Context, added: set<string>, ops: Primitives, win: WindowCall -> Value)
    requires i < |ps| && Contains(ps[i].1) && !ps[i].1.Window? && Avoids(ps[i].1, added)
    requires Extends(before, after, added, ops) && Bound(WindowsOf(ps), after, added, win)
    ensures exists out ::
      && (ps[i].0, out) in ComputedOf(ps)
      && Calls(out) == []
      && Eval(out, after, ops, Unanswered()) == Eval(ps[i].1, before, ops, Answered(win))
  {
    var c := CounterAt(SlotsOf(ps), i);
    ExtractListsCalls(ps[i].1, c);
    ComputedListed(ps, i);
    SlotsBound(SlotsOf(ps), i, after, added, win);
    SlotsNamed(ps[i], c);
    ExtractPreservesMeaning(ps[i].1, c, before, after, added, ops, win);
  }

  /** A base column needs no window call: it has one value whatever they give. */
  lemma {:induction false} BaseColumnMeaning(p: Projection, ctx: Context, ops: Primitives, win: WindowCall -> Value)
    requires !Contains(p.1)
    ensures Eval(p.1, ctx, ops, Unanswered()) == Eval(p.1, ctx, ops, Answered(win))
  {
    ContainsMeans(p.1);
    ExtractListsCalls(p.1, 0);
    AvoidsNothing(p.1);
    ExtractPreservesMeaning(p.1, 0, ctx, ctx, {}, ops, win);
    NothingToExtract(p.1, 0);
  }

  lemma {:induction false} AvoidsNothing(e: Expr)
    ensures Avoids(e, {})
    decreases e
  {
    match e
    case BinaryOp(left, _, right) => AvoidsNothing(left); AvoidsNothing(right);
    case UnaryOp(_, operand) => AvoidsNothing(operand);
    case Function(_, args, _) => forall k | 0 <= k < |args| { AvoidsNothing(args[k]); }
    case Cast(inner, _) => AvoidsNothing(inner);
    case Case(base, branches, otherwise) =>
      if base.Some? { AvoidsNothing(base.value); }
      forall k | 0 <= k < |branches| ensures AvoidsBranch(branches[k], {}) {
        var b := branches[k];
        assert branches decreases to b;
        AvoidsNothing(b.condition);
        AvoidsNothing(b.result);
      }
      if otherwise.Some? { AvoidsNothing(otherwise.value); }
    case ListOf(items) => forall k | 0 <= k < |items| { AvoidsNothing(items[k]); }
    case _ =>
  }

  lemma {:induction false} NothingToExtract(e: Expr, c: nat)
    requires Calls(e) == []
    ensures Extract(e, c) == Extraction([], e, c)
    decreases e
  {
    match e
    case BinaryOp(left, _, right) => NothingToExtract(left, c); NothingToExtract(right, c);
    case UnaryOp(_, operand) => NothingToExtract(operand, c);
    case Function(_, args, _) => NothingToExtractAll(args, c);
    case Cast(inner, _) => NothingToExtract(inner, c);
    case Case(base, branches, otherwise) =>
      if base.Some? { NothingToExtract(base.value, c); }
      NothingToExtractBranches(branches, c);
      if otherwise.Some? { NothingToExtract(otherwise.value, c); }
    case ListOf(items) => NothingToExtractAll(items, c);
    case _ =>
  }

  lemma {:induction false} NothingToExtractAll(es: seq<Expr>, c: nat)
    requires CallsAll(es) == []
    ensures ExtractAll(es, c) == Extraction([], es, c)
    decreases es
  {
    if es != [] {
      NothingToExtract(es[0], c);
      NothingToExtractAll(es[1..], c);
      assert [es[0]] + es[1..] == es;
    }
  }

  lemma {:induction false} NothingToExtractBranches(bs: seq<Branch>, c: nat)
    requires CallsBranches(bs) == []
    ensures ExtractBranches(bs, c) == Extraction([], bs, c)
    decreases bs
  {
    if bs != [] {
      var b := bs[0];
      assert bs decreases to b;
      NothingToExtract(b.condition, c);
      NothingToExtract(b.result, c);
      NothingToExtractBranches(bs[1..], c);
      assert [b] + bs[1..] == bs;
    }
  }
}
