// The program the kernels run: the source with every folded constant operand,
// and every other 64-bit literal, taken as an int.  It computes with ints and
// floats alone.

module Truncation {
  import opened Words
  import opened Hir
  import opened Lowering

  function Truncated(e: Expr): Expr {
    match e
    case TermExpr(LongTerm(l)) => TermExpr(IntTerm(Signed(Wrap(l))))
    case Unary(op, x) => Unary(op, Truncated(x))
    case Binary(kind, l, r) =>
      Binary(kind, Truncated(l), if ConstantOperand(kind).Some? then TruncatedConstant(r) else Truncated(r))
    case _ => e
  }

  function TruncatedConstant(r: Expr): Expr {
    match FoldConstant(r)
    case Some(c) => if INT_MIN <= c <= INT_MAX then TermExpr(IntTerm(c)) else r
    case None => r
  }

  // What the truncated expression evaluates to.
  function EvalTruncated(e: Expr, frame: Frame, vars: Vars, mem: Mem): Option<Value> { Eval(Truncated(e), frame, vars, mem) }

  function TruncatedStmt(s: Stmt): Stmt { Stmt(s.lhs, Truncated(s.rhs)) }

  function TruncatedBody(body: seq<Stmt>): (r: seq<Stmt>)
    ensures |r| == |body|
  {
    seq(|body|, (i: nat) requires i < |body| => TruncatedStmt(body[i]))
  }

  lemma TruncatedSnoc(body: seq<Stmt>)
    requires body != []
    ensures var t := TruncatedBody(body);
      t[..|t| - 1] == TruncatedBody(body[..|body| - 1]) && t[|t| - 1] == TruncatedStmt(body[|body| - 1])
  {
  }

  lemma {:induction false} TruncatedStripPar(e: Expr)
    ensures StripPar(Truncated(e)) == Truncated(StripPar(e))
  {
    if e.Unary? && e.unary.Par? {
      TruncatedStripPar(e.operand);
    }
  }

  lemma TruncatedSymbol(e: Expr)
    ensures TermSymbol(Truncated(e)) == TermSymbol(e)
  {
  }
}
