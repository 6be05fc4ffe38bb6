/** glom.c: checked 64-bit arithmetic, and evaluating an operand list. */
module ArithEval {
  import opened CStrings
  import opened Arith
  import opened Expressions

  predicate InRange(x: int) {
    INT_MIN <= x <= INT_MAX
  }

  type Int64 = x: int | InRange(x)

  /** A value, the error the user sees, or undefined behaviour of the C code. */
  datatype Outcome = Value(i: Int64) | Failed | Undefined

  /** Signed arithmetic in C: out of range is undefined. */
  function Signed(x: int): Outcome {
    if InRange(x) then Value(x) else Undefined
  }

  /** Division truncating toward zero, and its remainder (section 6.5.5 of ISO/IEC 9899). */
  function Quotient(a: int, b: int): int
    requires b != 0
  {
    if a >= 0 then (if b > 0 then a / b else -(a / -b))
    else (if b > 0 then -(-a / b) else -a / -b)
  }

  function Remainder(a: int, b: int): int
    requires b != 0
  {
    a - Quotient(a, b) * b
  }

  lemma NatDivision(a: nat, b: nat)
    requires b > 0
    ensures 0 <= a - a / b * b < b
  {}

  /** The remainder is smaller than the divisor and has the sign of the dividend. */
  lemma TruncatingDivision(a: int, b: int)
    requires b != 0
    ensures Quotient(a, b) * b + Remainder(a, b) == a
    ensures -(if b > 0 then b else -b) < Remainder(a, b) < (if b > 0 then b else -b)
    ensures a >= 0 ==> Remainder(a, b) >= 0
    ensures a <= 0 ==> Remainder(a, b) <= 0
  {
    var m, n := if a >= 0 then a else -a, if b > 0 then b else -b;
    NatDivision(m, n);
    var q := m / n;
    assert (-q) * b == -(q * b) && q * (-b) == -(q * b);
  }

  // ----- do_op -----

  /** The exact result, where there is one. */
  function Exact(op: Operator, accum: int, val: int): int
    requires op == Div || op == Mod ==> val != 0
  {
    match op
    case Add => accum + val
    case Sub => accum - val
    case Mul => accum * val
    case Div => Quotient(accum, val)
    case Mod => Remainder(accum, val)
  }

  /** Where the C code leaves the defined part of the language: the check for '-' lets a
      difference of exactly 2^63 through, and the check for '*' divides INT_MIN by -1. */
  predicate LeavesC(op: Operator, accum: int, val: int) {
    || (op == Sub && accum - val == INT_MAX + 1)
    || (op == Mul && val == -1 && accum != INT_MIN)
  }

  /** Integer arithmetic is exact, or fails exactly when the result does not fit. */
  function Checked(op: Operator, accum: int, val: int): Outcome {
    if (op == Div || op == Mod) && val == 0 then Failed
    else if LeavesC(op, accum, val) then Undefined
    else if InRange(Exact(op, accum, val)) then Value(Exact(op, accum, val))
    else Failed
  }

  /** Both happen: 0 minus the smallest integer, and 5 times -1. */
  lemma UndefinedAt()
    ensures Checked(Sub, 0, INT_MIN) == Undefined && Checked(Mul, 5, -1) == Undefined
    ensures !InRange(Exact(Sub, 0, INT_MIN)) && InRange(Exact(Mul, 5, -1))
  {}

  lemma ProductAtLeast(a: int, b: int, v: int)
    requires a >= b && v >= 0
    ensures a * v >= b * v
  {
    assert (a - b) * v >= 0;
    assert (a - b) * v == a * v - b * v;
  }

  /** The guard of the product check, for non-negative bounds. */
  lemma ProductGuard(a: int, v: int, bound: nat)
    requires v > 0
    ensures a > bound / v <==> a * v > bound
  {
    NatDivision(bound, v);
    var q := bound / v;
    if a > q {
      ProductAtLeast(a, q + 1, v);
      assert (q + 1) * v == q * v + v;
    } else {
      ProductAtLeast(q, a, v);
    }
  }

  lemma MulGuard(a: int, v: int)
    requires InRange(a) && InRange(v) && v != 0 && v != -1
    ensures v > 0 ==> (InRange(a * v) <==> !(a > Quotient(INT_MAX, v) || a < Quotient(INT_MIN, v)))
    ensures v < 0 ==> (InRange(a * v) <==> !(a < Quotient(INT_MAX, v) || a > Quotient(INT_MIN, v)))
  {
    var n := if v > 0 then v else -v;
    ProductGuard(a, n, INT_MAX);
    ProductGuard(-a, n, INT_MAX);
    ProductGuard(a, n, -INT_MIN);
    ProductGuard(-a, n, -INT_MIN);
    assert (-a) * n == -(a * n);
    assert a * v == if v > 0 then a * n else -(a * n);
  }

  /** do_op on integers.  Each assert says that the check before it stays in range itself. */
  method DoOp(op: Operator, val: int, accum: int) returns (r: Outcome)
    requires InRange(val) && InRange(accum)
    ensures r == Checked(op, accum, val)
  {
    match op
    case Add =>
      assert accum > 0 ==> InRange(INT_MAX - accum);
      if accum > 0 && val > INT_MAX - accum {
        return Failed;
      }
      assert accum < 0 ==> InRange(INT_MIN - accum);
      if accum < 0 && val < INT_MIN - accum {
        return Failed;
      }
      r := Signed(accum + val);
    case Sub =>
      assert accum > 0 ==> InRange(INT_MIN + accum);
      if accum > 0 && val < INT_MIN + accum {
        return Failed;
      }
      assert accum < 0 ==> InRange(INT_MAX + accum) && InRange(INT_MAX + accum + 1);
      if accum < 0 && val > INT_MAX + accum + 1 {
        return Failed;
      }
      r := Signed(accum - val);
    case Mul =>
      if val != 0 && val != -1 {
        MulGuard(accum, val);
      }
      if val > 0 && (accum > Quotient(INT_MAX, val) || accum < Quotient(INT_MIN, val)) {
        return Failed;
      }
      if val < 0 {
        if accum < Quotient(INT_MAX, val) {
          return Failed;
        }
        if !InRange(Quotient(INT_MIN, val)) {
          return Undefined;
        }
        if accum > Quotient(INT_MIN, val) {
          return Failed;
        }
      }
      r := Signed(accum * val);
    case Div =>
      if val == 0 {
        return Failed;
      }
      if accum == INT_MIN && val == -1 {
        return Failed;
      }
      QuotientFits(accum, val);
      r := Signed(Quotient(accum, val));
    case Mod =>
      if val == 0 {
        return Failed;
      }
      if accum == INT_MIN && val == -1 {
        r := Value(0);
      } else {
        TruncatingDivision(accum, val);
        r := Signed(Remainder(accum, val));
      }
  }

  lemma NatQuotientFits(m: nat, n: nat)
    requires m <= -INT_MIN && n > 0
    ensures n == 1 ==> m / n == m
    ensures n >= 2 ==> m / n <= INT_MAX
    ensures m / n >= 0
  {
    if n >= 2 {
      NatDivision(m, n);
      ProductAtLeast(n, 2, m / n);
    }
  }

  lemma QuotientFits(a: int, b: int)
    requires InRange(a) && InRange(b) && b != 0 && !(a == INT_MIN && b == -1)
    ensures InRange(Quotient(a, b))
  {
    if a >= 0 {
      if b > 0 {
        NatQuotientFits(a, b);
      } else {
        NatQuotientFits(a, -b);
      }
    } else {
      if b > 0 {
        NatQuotientFits(-a, b);
      } else {
        NatQuotientFits(-a, -b);
      }
    }
  }

  // ----- evaluating a tree -----

  /** Evaluating a word runs commands and so may change the state of the shell; leaf is that
      step, and everything below says in which order, and how far, the words are evaluated. */
  type Leaf<!S> = (CString, S) -> (Outcome, S)

  function Eval<S>(t: Tree, s: S, leaf: Leaf<S>): (Outcome, S)
    decreases t, 1
  {
    match t
    case Int(i) => (Signed(i), s)
    case Variable(x) => leaf(x, s)
    case Op(op, xs) =>
      if xs == [] then (Value(0), s)
      else
        var (v, s1) := Eval(xs[0], s, leaf);
        if v.Value? then EvalFrom(t, 1, v.i, s1, leaf) else (v, s1)
    case Cmp(cmp, left, right) =>
      var (l, s1) := Eval(left, s, leaf);
      if !l.Value? then (l, s1)
      else
        var (r, s2) := Eval(right, s1, leaf);
        if !r.Value? then (r, s2) else (Value(if Holds(cmp, l.i, r.i) then 1 else 0), s2)
  }

  predicate Holds(cmp: Comparison, l: int, r: int) {
    match cmp
    case Lt => l < r
    case Le => l <= r
    case Eq => l == r
    case Ne => l != r
    case Ge => l >= r
    case Gt => l > r
  }

  /** The operands from the j-th on, folded into accum. */
  function EvalFrom<S>(t: Tree, j: nat, accum: Int64, s: S, leaf: Leaf<S>): (Outcome, S)
    requires t.Op? && j <= |t.operands|
    decreases t, 0, |t.operands| - j
  {
    if j == |t.operands| then (Value(accum), s)
    else
      var (v, s1) := Eval(t.operands[j], s, leaf);
      if !v.Value? then (v, s1)
      else
        var r := Checked(t.op, accum, v.i);
        if r.Value? then EvalFrom(t, j + 1, r.i, s1, leaf) else (r, s1)
  }

  /** arithmefy */
  method Arithmefy<S>(t: Tree, s0: S, leaf: Leaf<S>) returns (r: Outcome, s: S)
    ensures (r, s) == Eval(t, s0, leaf)
    decreases t, 1
  {
    match t
    case Int(i) =>
      r, s := Signed(i), s0;
    case Variable(x) =>
      var out := leaf(x, s0);
      r, s := out.0, out.1;
    case Op(op, xs) =>
      r, s := ArithmefyOp(t, s0, leaf);
    case Cmp(cmp, left, right) =>
      r, s := Arithmefy(left, s0, leaf);
      if r.Value? {
        var lhs := r.i;
        r, s := Arithmefy(right, s, leaf);
        if r.Value? {
          r := Value(if Holds(cmp, lhs, r.i) then 1 else 0);
        }
      }
  }

  /** The nOp case: the first operand starts the accumulator, do_op folds in the others. */
  method ArithmefyOp<S>(t: Tree, s0: S, leaf: Leaf<S>) returns (r: Outcome, s: S)
    requires t.Op?
    ensures (r, s) == Eval(t, s0, leaf)
    decreases t, 0
  {
    var accum: Int64, first, j := 0, true, 0;
    s := s0;
    while j < |t.operands|
      invariant j <= |t.operands| && (first <==> j == 0)
      invariant first ==> s == s0 && accum == 0
      invariant !first ==> EvalFrom(t, j, accum, s, leaf) == Eval(t, s0, leaf)
    {
      r, s := Arithmefy(t.operands[j], s, leaf);
      if !r.Value? {
        return;
      }
      if first {
        accum, first := r.i, false;
      } else {
        r := DoOp(t.op, r.i, accum);
        if !r.Value? {
          return;
        }
        accum := r.i;
      }
      j := j + 1;
    }
    r := Value(accum);
  }

  // ----- flattening preserves meaning -----

  /** Evaluate two operands in turn and combine them. */
  function Both<S>(op: Operator, a: Tree, b: Tree, s: S, leaf: Leaf<S>): (Outcome, S) {
    var (v, s1) := Eval(a, s, leaf);
    if v.Value? then WithNext(op, v.i, b, s1, leaf) else (v, s1)
  }

  function WithNext<S>(op: Operator, accum: Int64, b: Tree, s: S, leaf: Leaf<S>): (Outcome, S) {
    var (w, s1) := Eval(b, s, leaf);
    if w.Value? then (Checked(op, accum, w.i), s1) else (w, s1)
  }

  lemma {:induction false} OneMoreOperand<S>(t: Tree, b: Tree, j: nat, accum: Int64, s: S, leaf: Leaf<S>)
    requires t.Op? && j <= |t.operands|
    ensures
      var (v, s1) := EvalFrom(t, j, accum, s, leaf);
      EvalFrom(Op(t.op, t.operands + [b]), j, accum, s, leaf) ==
        if v.Value? then WithNext(t.op, v.i, b, s1, leaf) else (v, s1)
    decreases |t.operands| - j
  {
    var u := Op(t.op, t.operands + [b]);
    if j == |t.operands| {
      assert u.operands[j] == b;
    } else {
      assert u.operands[j] == t.operands[j];
      var (v, s1) := Eval(t.operands[j], s, leaf);
      if v.Value? {
        var r := Checked(t.op, accum, v.i);
        if r.Value? {
          OneMoreOperand(t, b, j + 1, r.i, s1, leaf);
        }
      }
    }
  }

  /** Evaluating the flat node mkop makes is evaluating the two operands in turn, failures and
      effects on the shell included. */
  lemma MkOpMeaning<S>(op: Operator, a: Tree, b: Tree, s: S, leaf: Leaf<S>)
    requires a.Op? ==> a.operands != []
    ensures Eval(MkOp(op, a, b), s, leaf) == Both(op, a, b, s, leaf)
  {
    var t := MkOp(op, a, b);
    if a.Op? && a.op == op {
      assert t.operands[0] == a.operands[0];
      var (v, s1) := Eval(a.operands[0], s, leaf);
      if v.Value? {
        OneMoreOperand(a, b, 1, v.i, s1, leaf);
      }
    } else {
      var (v, s1) := Eval(a, s, leaf);
      if v.Value? {
        assert t.operands == [a, b];
        var (w, s2) := Eval(b, s1, leaf);
        if w.Value? && Checked(op, v.i, w.i).Value? {
          assert EvalFrom(t, 2, Checked(op, v.i, w.i).i, s2, leaf) == (Checked(op, v.i, w.i), s2);
        }
      }
    }
  }

  /** The meaning of an expression: operands left to right, a sign as a difference from zero. */
  function Meaning<S>(e: Nested, s: S, leaf: Leaf<S>): (Outcome, S) {
    match e
    case Number(n) => (Signed(n), s)
    case Word(x) => leaf(x, s)
    case Infix(op, l, r) =>
      var (v, s1) := Meaning(l, s, leaf);
      if !v.Value? then (v, s1)
      else
        var (w, s2) := Meaning(r, s1, leaf);
        if w.Value? then (Checked(op, v.i, w.i), s2) else (w, s2)
    case Minus(a) =>
      var (v, s1) := Meaning(a, s, leaf);
      if v.Value? then (Checked(Sub, 0, v.i), s1) else (v, s1)
    case Grouped(a) => Meaning(a, s, leaf)
  }

  /** Flattening and folding signs into literals preserve the meaning of every expression. */
  lemma {:induction false} BuildMeaning<S>(e: Nested, s: S, leaf: Leaf<S>)
    requires Literals(e)
    ensures Eval(Build(e), s, leaf) == Meaning(e, s, leaf)
  {
    match e
    case Number(_) =>
    case Word(_) =>
    case Infix(op, l, r) =>
      BuildMeaning(l, s, leaf);
      MkOpMeaning(op, Build(l), Build(r), s, leaf);
      BuildMeaning(r, Meaning(l, s, leaf).1, leaf);
    case Minus(a) =>
      BuildMeaning(a, s, leaf);
      if !Build(a).Int? {
        MkOpMeaning(Sub, Int(0), Build(a), s, leaf);
      }
    case Grouped(a) =>
      BuildMeaning(a, s, leaf);
  }

  /** What is typed as an expression evaluates to its meaning. */
  lemma TypedMeaning<S>(e: Nested, s: S, leaf: Leaf<S>)
    requires Literals(e)
    ensures Parse(Spell(e)).Some? && Eval(Parse(Spell(e)).value, s, leaf) == Meaning(e, s, leaf)
  {
    ParseSpelled(e);
    BuildMeaning(e, s, leaf);
  }

  /** What is typed as a comparison answers 1 or 0, as the two values, in this order, compare. */
  lemma TypedComparison<S>(cmp: Comparison, l: Nested, r: Nested, s: S, leaf: Leaf<S>)
    requires Literals(l) && Literals(r)
    requires Meaning(l, s, leaf).0.Value? && Meaning(r, Meaning(l, s, leaf).1, leaf).0.Value?
    ensures
      var t := Parse(Spell(l) + [Compare(cmp)] + Spell(r));
      var (v, s1) := Meaning(l, s, leaf);
      var (w, s2) := Meaning(r, s1, leaf);
      && t.Some? && Eval(t.value, s, leaf).1 == s2
      && (Eval(t.value, s, leaf).0 == Value(1) <==>
            || (v.i < w.i && cmp in {Lt, Le, Ne})
            || (v.i == w.i && cmp in {Le, Eq, Ge})
            || (v.i > w.i && cmp in {Gt, Ge, Ne}))
      && (Eval(t.value, s, leaf).0 != Value(1) ==> Eval(t.value, s, leaf).0 == Value(0))
  {
    ParseComparison(cmp, l, r);
    BuildMeaning(l, s, leaf);
    BuildMeaning(r, Meaning(l, s, leaf).1, leaf);
  }

  /** What the operators yield, when they yield a value: sum, difference and product, and the
      quotient and remainder of division toward zero. */
  lemma OperatorsYield(op: Operator, a: Int64, b: Int64, x: Int64)
    requires Checked(op, a, b) == Value(x)
    ensures op == Add ==> x == a + b
    ensures op == Sub ==> x + b == a
    ensures op == Mul ==> x == a * b
    ensures op == Div ==> b != 0 && Truncates(a, b, x, a - x * b)
    ensures op == Mod ==> b != 0 && Truncates(a, b, Quotient(a, b), x)
  {
    if b != 0 {
      TruncatingDivision(a, b);
    }
  }

  /** a is q times b and r more, where r is less than b and not of the other sign than a. */
  predicate Truncates(a: int, b: int, q: int, r: int) {
    q * b + r == a && (-b < r < b || b < r < -b) && (a >= 0 ==> r >= 0) && (a <= 0 ==> r <= 0)
  }
}
