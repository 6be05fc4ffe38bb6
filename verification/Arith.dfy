/** syntax.c, parse.y, conv.c: arithmetic trees, the rules that build them from tokens under
    the declared precedences, and the printer whose output those rules must read back. */
module Arith {
  import opened CStrings

  const INT_MAX: int := 0x7FFF_FFFF_FFFF_FFFF
  const INT_MIN: int := -0x8000_0000_0000_0000

  datatype Operator = Add | Sub | Mul | Div | Mod

  datatype Comparison = Lt | Le | Eq | Ne | Ge | Gt

  /** nInt, $word, nOp with its flat operand list, and nCmp */
  datatype Tree =
    | Int(i: int)
    | Variable(name: CString)
    | Op(op: Operator, operands: seq<Tree>)
    | Cmp(cmp: Comparison, left: Tree, right: Tree)

  // ----- building trees (syntax.c) -----

  /** mkop: an operand list grows at its end while the operator stays the same. */
  function MkOp(op: Operator, t1: Tree, t2: Tree): Tree {
    if t1.Op? && t1.op == op then Op(op, t1.operands + [t2]) else Op(op, [t1, t2])
  }

  /** mkneg: the sign of a literal is changed; anything else is subtracted from zero.  None is
      the overflow error. */
  function MkNeg(t: Tree): Option<Tree> {
    if t.Int? then (if t.i < -INT_MAX then None else Some(Int(-t.i)))
    else Some(MkOp(Sub, Int(0), t))
  }

  // ----- reading (parse.y) -----

  /** INT tokens are unsigned and fit 64 bits. */
  datatype Token =
    | Num(n: int)
    | Name(name: CString)
    | Sign(op: Operator)
    | Compare(cmp: Comparison)
    | LeftParen
    | RightParen

  predicate Lexed(input: seq<Token>) {
    forall i :: 0 <= i < |input| && input[i].Num? ==> 0 <= input[i].n <= INT_MAX
  }

  /** The order of the %left lines; the comparisons stand below and NEG above all of these. */
  function Prec(op: Operator): nat {
    match op
    case Add => 1
    case Sub => 1
    case Mul => 2
    case Div => 2
    case Mod => 3
  }

  /** The parser's stack, top first: what is waiting for an operand to be completed. */
  datatype Stack =
    | Bottom
    | Binary(left: Tree, op: Operator, below: Stack)
    | Negation(below: Stack)
    | Paren(below: Stack)
    | Comparing(first: Tree, cmp: Comparison)

  /** Shift the start of an operand. */
  function Operand(stack: Stack, input: seq<Token>): Option<Tree>
    decreases |input|, stack, 0
  {
    if input == [] then None
    else
      match input[0]
      case Num(n) => After(stack, Int(n), input[1..])
      case Name(x) => After(stack, Variable(x), input[1..])
      case Sign(op) => if op == Sub then Operand(Negation(stack), input[1..]) else None
      case LeftParen => Operand(Paren(stack), input[1..])
      case _ => None
  }

  /** An operand is complete: reduce unless the next operator binds tighter, else shift. */
  function After(stack: Stack, t: Tree, input: seq<Token>): Option<Tree>
    decreases |input|, stack, 1
  {
    match stack
    case Negation(below) =>
      var n := MkNeg(t);
      if n.None? then None else After(below, n.value, input)
    case Binary(left, op, below) =>
      if input != [] && input[0].Sign? && Prec(input[0].op) > Prec(op) then
        Operand(Binary(t, input[0].op, stack), input[1..])
      else After(below, MkOp(op, left, t), input)
    case Paren(below) =>
      if input == [] then None
      else if input[0].RightParen? then After(below, t, input[1..])
      else if input[0].Sign? then Operand(Binary(t, input[0].op, stack), input[1..])
      else None
    case Bottom =>
      if input == [] then Some(t)
      else if input[0].Sign? then Operand(Binary(t, input[0].op, stack), input[1..])
      else if input[0].Compare? then Operand(Comparing(t, input[0].cmp), input[1..])
      else None
    case Comparing(first, cmp) =>
      if input == [] then Some(Cmp(cmp, first, t))
      else if input[0].Sign? then Operand(Binary(t, input[0].op, stack), input[1..])
      else None
  }

  /** cmparith */
  function Parse(input: seq<Token>): Option<Tree> {
    Operand(Bottom, input)
  }

  // ----- printing (conv.c) -----

  /** Precedence of the operator being printed, and of the operator of an operand: the second
      table does not know that '%' binds tighter. */
  function OpPrec(op: Operator): nat {
    if op == Mod then 3 else if op == Mul || op == Div then 2 else 1
  }

  function OperandPrec(op: Operator): nat {
    if op == Mul || op == Div then 2 else 1
  }

  function Print(t: Tree): seq<Token>
    decreases t, 3, 0
  {
    match t
    case Int(i) => if i >= 0 then [Num(i)] else [Sign(Sub), Num(-i)]
    case Variable(x) => [Name(x)]
    case Op(op, xs) => if xs == [] then [] else PrintFirst(t) + PrintRest(t, 1)
    case Cmp(cmp, left, right) => Print(left) + [Compare(cmp)] + Print(right)
  }

  function PrintFirst(t: Tree): seq<Token>
    requires t.Op? && t.operands != []
    decreases t, 1, 0
  {
    var x := t.operands[0];
    if x.Op? && OperandPrec(x.op) < OpPrec(t.op) then [LeftParen] + Print(x) + [RightParen] else Print(x)
  }

  /** The operands from the j-th on, each after its operator. */
  function PrintRest(t: Tree, j: nat): seq<Token>
    requires t.Op? && j <= |t.operands|
    decreases t, 2, |t.operands| - j
  {
    if j == |t.operands| then []
    else PrintNext(t, j) + PrintRest(t, j + 1)
  }

  function PrintNext(t: Tree, j: nat): seq<Token>
    requires t.Op? && j < |t.operands|
    decreases t, 1, 0
  {
    var x := t.operands[j];
    [Sign(t.op)] + if x.Op? && OperandPrec(x.op) <= OpPrec(t.op) then [LeftParen] + Print(x) + [RightParen] else Print(x)
  }

  // ----- the trees the parser builds -----

  /** Literals fit their printed form, and an operand list is never split: its first operand
      is not a list for the same operator. */
  predicate Built(t: Tree)
    decreases t
  {
    match t
    case Int(i) => -INT_MAX <= i <= INT_MAX
    case Variable(_) => true
    case Op(op, xs) =>
      && |xs| >= 2
      && !(xs[0].Op? && xs[0].op == op)
      && forall k :: 0 <= k < |xs| ==> !xs[k].Cmp? && Built(xs[k])
    case Cmp(_, l, r) => false
  }

  lemma MkOpBuilt(op: Operator, t1: Tree, t2: Tree)
    requires Built(t1) && Built(t2)
    ensures Built(MkOp(op, t1, t2))
  {
    var t := MkOp(op, t1, t2);
    if t1.Op? && t1.op == op {
      forall k | 0 <= k < |t.operands| ensures !t.operands[k].Cmp? && Built(t.operands[k]) {
        if k < |t1.operands| {
          assert t.operands[k] == t1.operands[k];
        }
      }
    }
  }

  /** The overflow branch of mkneg is dead: the parser never has a literal below -INT_MAX. */
  lemma MkNegBuilt(t: Tree)
    requires Built(t)
    ensures MkNeg(t).Some? && Built(MkNeg(t).value)
  {
    if !t.Int? {
      MkOpBuilt(Sub, Int(0), t);
    }
  }

  predicate StackBuilt(stack: Stack) {
    match stack
    case Bottom => true
    case Binary(left, _, below) => Built(left) && StackBuilt(below)
    case Negation(below) => StackBuilt(below)
    case Paren(below) => StackBuilt(below)
    case Comparing(first, _) => Built(first)
  }

  /** What cmparith yields. */
  predicate BuiltTop(t: Tree) {
    if t.Cmp? then Built(t.left) && Built(t.right) else Built(t)
  }

  lemma {:induction false} OperandBuilt(stack: Stack, input: seq<Token>)
    requires StackBuilt(stack) && Lexed(input)
    ensures Operand(stack, input).Some? ==> BuiltTop(Operand(stack, input).value)
    decreases |input|, stack, 0
  {
    if input != [] {
      var rest := input[1..];
      assert Lexed(rest);
      match input[0]
      case Num(n) => AfterBuilt(stack, Int(n), rest);
      case Name(x) => AfterBuilt(stack, Variable(x), rest);
      case Sign(op) => OperandBuilt(Negation(stack), rest);
      case LeftParen => OperandBuilt(Paren(stack), rest);
      case _ =>
    }
  }

  lemma {:induction false} AfterBuilt(stack: Stack, t: Tree, input: seq<Token>)
    requires StackBuilt(stack) && Built(t) && Lexed(input)
    ensures After(stack, t, input).Some? ==> BuiltTop(After(stack, t, input).value)
    decreases |input|, stack, 1
  {
    var rest := if input == [] then [] else input[1..];
    assert Lexed(rest);
    if input != [] && input[0].Sign? && !stack.Negation? {
      OperandBuilt(Binary(t, input[0].op, stack), rest);
    }
    match stack
    case Negation(below) =>
      MkNegBuilt(t);
      AfterBuilt(below, MkNeg(t).value, input);
    case Binary(left, op, below) =>
      MkOpBuilt(op, left, t);
      AfterBuilt(below, MkOp(op, left, t), input);
    case Paren(below) =>
      if input != [] && input[0].RightParen? {
        AfterBuilt(below, t, rest);
      }
    case Bottom =>
      if input != [] && input[0].Compare? {
        OperandBuilt(Comparing(t, input[0].cmp), rest);
      }
    case Comparing(_, _) =>
  }

  // ----- reading back what was printed -----

  /** What stands before an operand leaves it whole: an operator below binds less tightly than
      the operator of the operand, and a negation has nothing but a literal or a name after it. */
  predicate Left(stack: Stack, t: Tree) {
    t.Op? ==> !stack.Negation? && (stack.Binary? ==> Prec(stack.op) < Prec(t.op))
  }

  /** What follows an operand leaves it whole. */
  predicate Right(t: Tree, input: seq<Token>) {
    t.Op? && input != [] && input[0].Sign? ==> Prec(input[0].op) <= Prec(t.op)
  }

  /** In such a place, reading the printed operand is the same as having it. */
  lemma {:induction false} ReadBack(t: Tree, stack: Stack, input: seq<Token>)
    requires Built(t) && Left(stack, t) && Right(t, input)
    ensures Operand(stack, Print(t) + input) == After(stack, t, input)
    decreases t, 3, 0
  {
    var all := Print(t) + input;
    match t
    case Int(i) =>
      if i >= 0 {
        assert all[1..] == input;
      } else {
        assert all[1..] == [Num(-i)] + input;
        assert all[1..][1..] == input;
        assert Operand(Negation(stack), all[1..]) == After(Negation(stack), Int(-i), input);
      }
    case Variable(x) =>
      assert all[1..] == input;
    case Op(op, xs) =>
      assert all == PrintFirst(t) + (PrintRest(t, 1) + input);
      ReadFirst(t, stack, input);
      ReadRest(t, 1, stack, input);
  }

  /** An operand in parentheses can stand anywhere. */
  lemma {:induction false} ReadParens(x: Tree, stack: Stack, input: seq<Token>)
    requires Built(x)
    ensures Operand(stack, [LeftParen] + Print(x) + [RightParen] + input) == After(stack, x, input)
    decreases x, 4, 0
  {
    var all := [LeftParen] + Print(x) + [RightParen] + input;
    var rest := [RightParen] + input;
    assert all[1..] == Print(x) + rest;
    ReadBack(x, Paren(stack), rest);
    assert rest[1..] == input;
  }

  lemma {:induction false} ReadFirst(t: Tree, stack: Stack, input: seq<Token>)
    requires Built(t) && t.Op? && Left(stack, t)
    ensures Operand(stack, PrintFirst(t) + (PrintRest(t, 1) + input)) == After(stack, t.operands[0], PrintRest(t, 1) + input)
    decreases t, 2, 0
  {
    var x, rest := t.operands[0], PrintRest(t, 1) + input;
    RestStartsWithOperator(t, 1, input);
    if x.Op? && OperandPrec(x.op) < OpPrec(t.op) {
      ReadParens(x, stack, rest);
    } else {
      ReadBack(x, stack, rest);
    }
  }

  lemma RestStartsWithOperator(t: Tree, j: nat, input: seq<Token>)
    requires t.Op? && j < |t.operands|
    ensures PrintRest(t, j) + input != [] && (PrintRest(t, j) + input)[0] == Sign(t.op)
  {}

  /** The operands before the j-th, as the parser has combined them. */
  function Combined(t: Tree, j: nat): Tree
    requires t.Op? && 1 <= j <= |t.operands|
  {
    if j == 1 then t.operands[0] else Op(t.op, t.operands[..j])
  }

  lemma CombinedNext(t: Tree, j: nat)
    requires Built(t) && t.Op? && 1 <= j < |t.operands|
    ensures MkOp(t.op, Combined(t, j), t.operands[j]) == Combined(t, j + 1)
  {
    assert t.operands[..j + 1] == t.operands[..j] + [t.operands[j]];
  }

  lemma {:induction false} ReadRest(t: Tree, j: nat, stack: Stack, input: seq<Token>)
    requires Built(t) && t.Op? && 1 <= j <= |t.operands| && Left(stack, t) && Right(t, input)
    ensures After(stack, Combined(t, j), PrintRest(t, j) + input) == After(stack, t, input)
    decreases t, 1, |t.operands| - j
  {
    hide After, Operand, MkOp;
    if j == |t.operands| {
      assert t.operands[..j] == t.operands;
      assert PrintRest(t, j) + input == input;
    } else {
      var rest := PrintRest(t, j + 1) + input;
      assert PrintRest(t, j) + input == PrintNext(t, j) + rest;
      ReadNext(t, j, stack, rest, input);
      ReadRest(t, j + 1, stack, input);
    }
  }

  /** Before an operand of t the parser shifts, and after it it reduces. */
  lemma ShiftNext(stack: Stack, t: Tree, left: Tree, rest: seq<Token>)
    requires t.Op? && Left(stack, t)
    ensures After(stack, left, [Sign(t.op)] + rest) == Operand(Binary(left, t.op, stack), rest)
  {
    assert ([Sign(t.op)] + rest)[1..] == rest;
  }

  lemma ReduceNext(stack: Stack, op: Operator, left: Tree, x: Tree, rest: seq<Token>)
    requires rest != [] && rest[0].Sign? ==> Prec(rest[0].op) <= Prec(op)
    ensures After(Binary(left, op, stack), x, rest) == After(stack, MkOp(op, left, x), rest)
  {}

  lemma {:induction false} ReadNext(t: Tree, j: nat, stack: Stack, rest: seq<Token>, input: seq<Token>)
    requires Built(t) && t.Op? && 1 <= j < |t.operands| && Left(stack, t) && Right(t, input)
    requires rest == PrintRest(t, j + 1) + input
    ensures After(stack, Combined(t, j), PrintNext(t, j) + rest) == After(stack, Combined(t, j + 1), rest)
    decreases t, 0, 0
  {
    hide After, Operand, MkOp, PrintRest;
    var x, op := t.operands[j], t.op;
    var inner := Binary(Combined(t, j), op, stack);
    if j + 1 < |t.operands| {
      RestStartsWithOperator(t, j + 1, input);
    } else {
      LastOperand(t, input);
    }
    CombinedNext(t, j);
    if x.Op? && OperandPrec(x.op) <= OpPrec(op) {
      var rest1 := [LeftParen] + Print(x) + [RightParen] + rest;
      assert PrintNext(t, j) + rest == [Sign(op)] + rest1;
      ShiftNext(stack, t, Combined(t, j), rest1);
      ReadParens(x, inner, rest);
    } else {
      assert PrintNext(t, j) + rest == [Sign(op)] + (Print(x) + rest);
      ShiftNext(stack, t, Combined(t, j), Print(x) + rest);
      ReadBack(x, inner, rest);
    }
    ReduceNext(stack, op, Combined(t, j), x, rest);
  }

  lemma LastOperand(t: Tree, input: seq<Token>)
    requires t.Op?
    ensures PrintRest(t, |t.operands|) + input == input
  {}

  /** Every tree the parser can build from literals and names is read back from its printed
      form, under the declared precedences, as the same tree. */
  lemma PrintParse(input: seq<Token>)
    requires Lexed(input) && Parse(input).Some?
    ensures Parse(Print(Parse(input).value)) == Parse(input)
  {
    OperandBuilt(Bottom, input);
    var t := Parse(input).value;
    if t.Cmp? {
      var rest := [Compare(t.cmp)] + Print(t.right);
      assert Print(t) == Print(t.left) + rest;
      ReadBack(t.left, Bottom, rest);
      assert rest[1..] == Print(t.right) + [];
      ReadBack(t.right, Comparing(t.left, t.cmp), []);
    } else {
      assert Print(t) == Print(t) + [];
      ReadBack(t, Bottom, []);
    }
  }

  /** Tconv on these trees, appending to the output. */
  method Tconv(t: Tree, buf: seq<Token>) returns (out: seq<Token>)
    requires BuiltTop(t)
    ensures out == buf + Print(t)
    decreases t, 1
  {
    match t
    case Int(i) =>
      out := buf + if i >= 0 then [Num(i)] else [Sign(Sub), Num(-i)];
    case Variable(x) =>
      out := buf + [Name(x)];
    case Op(op, xs) =>
      out := TconvOp(t, buf);
    case Cmp(cmp, left, right) =>
      out := Tconv(left, buf);
      out := Tconv(right, out + [Compare(cmp)]);
  }

  function Wrapped(x: Tree, parens: bool): seq<Token> {
    if parens then [LeftParen] + Print(x) + [RightParen] else Print(x)
  }

  method TconvOperand(x: Tree, parens: bool, buf: seq<Token>) returns (out: seq<Token>)
    requires Built(x)
    ensures out == buf + Wrapped(x, parens)
    decreases x, 2
  {
    if parens {
      out := Tconv(x, buf + [LeftParen]);
      out := out + [RightParen];
      assert buf + [LeftParen] + Print(x) + [RightParen] == buf + ([LeftParen] + Print(x) + [RightParen]);
    } else {
      out := Tconv(x, buf);
    }
  }

  /** The nOp case: the first operand, then a loop over the others. */
  method TconvOp(t: Tree, buf: seq<Token>) returns (out: seq<Token>)
    requires t.Op? && Built(t)
    ensures out == buf + Print(t)
    decreases t, 0
  {
    hide Built, OpPrec, OperandPrec, Wrapped;
    PrintedOp(t);
    OperandsBuilt(t);
    var x := t.operands[0];
    out := TconvOperand(x, x.Op? && OperandPrec(x.op) < OpPrec(t.op), buf);
    Reassociated(buf, PrintFirst(t), PrintRest(t, 1));
    var j := 1;
    while j < |t.operands|
      invariant 1 <= j <= |t.operands|
      invariant out + PrintRest(t, j) == buf + Print(t)
    {
      x := t.operands[j];
      ghost var before := out;
      out := TconvOperand(x, x.Op? && OperandPrec(x.op) <= OpPrec(t.op), out + [Sign(t.op)]);
      PrintedNext(t, j);
      Reassociated(before, [Sign(t.op)], Wrapped(x, x.Op? && OperandPrec(x.op) <= OpPrec(t.op)));
      Reassociated(before, PrintNext(t, j), PrintRest(t, j + 1));
      j := j + 1;
    }
    assert PrintRest(t, j) == [];
  }

  lemma OperandsBuilt(t: Tree)
    requires Built(t) && t.Op?
    ensures |t.operands| >= 2 && forall k :: 0 <= k < |t.operands| ==> Built(t.operands[k])
  {}

  lemma PrintedOp(t: Tree)
    requires Built(t) && t.Op?
    ensures |t.operands| >= 2 && Print(t) == PrintFirst(t) + PrintRest(t, 1)
    ensures var x := t.operands[0]; PrintFirst(t) == Wrapped(x, x.Op? && OperandPrec(x.op) < OpPrec(t.op))
  {}

  lemma PrintedNext(t: Tree, j: nat)
    requires t.Op? && j < |t.operands|
    ensures var x := t.operands[j];
      PrintNext(t, j) == [Sign(t.op)] + Wrapped(x, x.Op? && OperandPrec(x.op) <= OpPrec(t.op))
    ensures PrintRest(t, j) == PrintNext(t, j) + PrintRest(t, j + 1)
  {}

  lemma Reassociated(a: seq<Token>, b: seq<Token>, c: seq<Token>)
    ensures a + b + c == a + (b + c)
  {}
}
