/** parse.y: arithmetic expressions as they are written, and which tree each of them is. */
module Expressions {
  import opened CStrings
  import opened Arith

  /** The expression as the grammar nests it; Grouped is one in parentheses. */
  datatype Nested =
    | Number(n: int)
    | Word(name: CString)
    | Infix(op: Operator, left: Nested, right: Nested)
    | Minus(arg: Nested)
    | Grouped(arg: Nested)

  predicate Literals(e: Nested) {
    match e
    case Number(n) => 0 <= n <= INT_MAX
    case Word(_) => true
    case Infix(_, l, r) => Literals(l) && Literals(r)
    case Minus(a) => Literals(a)
    case Grouped(a) => Literals(a)
  }

  /** The tree the grammar's actions build for it. */
  function Build(e: Nested): (t: Tree)
    requires Literals(e)
    ensures Built(t)
  {
    match e
    case Number(n) => Int(n)
    case Word(x) => Variable(x)
    case Infix(op, l, r) =>
      MkOpBuilt(op, Build(l), Build(r));
      MkOp(op, Build(l), Build(r))
    case Minus(a) =>
      MkNegBuilt(Build(a));
      MkNeg(Build(a)).value
    case Grouped(a) => Build(a)
  }

  // ----- how an expression is written -----

  /** How tightly the operators bind: + and - least, then * and /, then %. */
  function OpLevel(op: Operator): nat {
    if op in {Add, Sub} then 0 else if op in {Mul, Div} then 1 else 2
  }

  /** A sign binds more tightly than any operator. */
  function Level(e: Nested): nat {
    match e
    case Infix(op, _, _) => OpLevel(op)
    case Minus(_) => 3
    case _ => 4
  }

  /** Operators of one level associate to the left: only a right operand of the same level needs
      parentheses. */
  function Spell(e: Nested): seq<Token>
    decreases e, 0
  {
    match e
    case Number(n) => [Num(n)]
    case Word(x) => [Name(x)]
    case Infix(op, l, r) => SpellAt(l, Level(e)) + [Sign(op)] + SpellAt(r, Level(e) + 1)
    case Minus(a) => [Sign(Sub)] + SpellAt(a, Level(e))
    case Grouped(a) => [LeftParen] + Spell(a) + [RightParen]
  }

  /** Parentheses stand where an operand binds less tightly than its place needs. */
  function SpellAt(e: Nested, level: nat): seq<Token>
    decreases e, 1
  {
    if Level(e) < level then [LeftParen] + Spell(e) + [RightParen] else Spell(e)
  }

  // ----- reading what was written -----

  /** What stands before an expression leaves it whole. */
  predicate FitsAfter(stack: Stack, e: Nested) {
    && (stack.Negation? ==> Level(e) >= 3)
    && (stack.Binary? ==> Level(e) > OpLevel(stack.op))
  }

  /** And so does what follows it. */
  predicate FitsBefore(e: Nested, input: seq<Token>) {
    input != [] && input[0].Sign? ==> Level(e) >= OpLevel(input[0].op)
  }

  /** In such a place, reading the expression is having its tree. */
  lemma {:induction false} ReadSpelled(e: Nested, stack: Stack, input: seq<Token>)
    requires Literals(e) && FitsAfter(stack, e) && FitsBefore(e, input)
    ensures Operand(stack, Spell(e) + input) == After(stack, Build(e), input)
    decreases e, 0
  {
    var all := Spell(e) + input;
    match e
    case Number(n) =>
      assert all[1..] == input;
    case Word(x) =>
      assert all[1..] == input;
    case Infix(op, l, r) =>
      ReadInfix(op, l, r, stack, input);
    case Minus(a) =>
      assert all[1..] == SpellAt(a, 3) + input;
      ReadSpelledAt(a, 3, Negation(stack), input);
      MkNegBuilt(Build(a));
    case Grouped(a) =>
      ReadGroup(a, stack, input);
  }

  /** An expression in parentheses can stand anywhere. */
  lemma {:induction false} ReadGroup(e: Nested, stack: Stack, input: seq<Token>)
    requires Literals(e)
    ensures Operand(stack, [LeftParen] + Spell(e) + [RightParen] + input) == After(stack, Build(e), input)
    decreases e, 1
  {
    var all, rest := [LeftParen] + Spell(e) + [RightParen] + input, [RightParen] + input;
    assert all[1..] == Spell(e) + rest;
    ReadSpelled(e, Paren(stack), rest);
    assert rest[1..] == input;
  }

  lemma {:induction false} ReadSpelledAt(e: Nested, level: nat, stack: Stack, input: seq<Token>)
    requires Literals(e)
    requires Level(e) >= level ==> FitsAfter(stack, e) && FitsBefore(e, input)
    ensures Operand(stack, SpellAt(e, level) + input) == After(stack, Build(e), input)
    decreases e, 2
  {
    if Level(e) < level {
      ReadGroup(e, stack, input);
    } else {
      ReadSpelled(e, stack, input);
    }
  }

  lemma {:induction false} ReadInfix(op: Operator, l: Nested, r: Nested, stack: Stack, input: seq<Token>)
    requires Literals(Infix(op, l, r)) && FitsAfter(stack, Infix(op, l, r)) && FitsBefore(Infix(op, l, r), input)
    ensures Operand(stack, Spell(Infix(op, l, r)) + input) == After(stack, Build(Infix(op, l, r)), input)
    decreases Infix(op, l, r), 0, 0
  {
    hide Operand, After, MkOp, Built;
    var e := Infix(op, l, r);
    var level := Level(e);
    var rest := SpellAt(r, level + 1) + input;
    InfixText(op, l, r, input);
    ReadSpelledAt(l, level, stack, [Sign(op)] + rest);
    ShiftSign(stack, Build(l), op, rest);
    ReadSpelledAt(r, level + 1, Binary(Build(l), op, stack), input);
    ReduceNext(stack, op, Build(l), Build(r), input);
  }

  lemma InfixText(op: Operator, l: Nested, r: Nested, input: seq<Token>)
    ensures var level := OpLevel(op);
      Spell(Infix(op, l, r)) + input == SpellAt(l, level) + ([Sign(op)] + (SpellAt(r, level + 1) + input))
  {
    hide SpellAt;
    var a, b := SpellAt(l, OpLevel(op)), SpellAt(r, OpLevel(op) + 1);
    Reassociated(a + [Sign(op)], b, input);
    Reassociated(a, [Sign(op)], b + input);
  }

  lemma ShiftSign(stack: Stack, t: Tree, op: Operator, rest: seq<Token>)
    requires !stack.Negation? && (stack.Binary? ==> Prec(op) > Prec(stack.op))
    ensures After(stack, t, [Sign(op)] + rest) == Operand(Binary(t, op, stack), rest)
  {
    assert ([Sign(op)] + rest)[1..] == rest;
  }

  /** Every expression is read as the tree its nesting builds, under the declared precedences:
      % above * and /, those above + and -, each to the left, and a sign above all. */
  lemma ParseSpelled(e: Nested)
    requires Literals(e)
    ensures Parse(Spell(e)) == Some(Build(e))
  {
    assert Spell(e) + [] == Spell(e);
    ReadSpelled(e, Bottom, []);
  }

  /** A comparison stands below all operators. */
  lemma ParseComparison(cmp: Comparison, l: Nested, r: Nested)
    requires Literals(l) && Literals(r)
    ensures Parse(Spell(l) + [Compare(cmp)] + Spell(r)) == Some(Cmp(cmp, Build(l), Build(r)))
  {
    hide Operand, After, Spell;
    var rest := [Compare(cmp)] + Spell(r);
    Reassociated(Spell(l), [Compare(cmp)], Spell(r));
    ReadSpelled(l, Bottom, rest);
    ShiftComparison(cmp, Build(l), Spell(r));
    assert Spell(r) + [] == Spell(r);
    ReadSpelled(r, Comparing(Build(l), cmp), []);
    EndComparison(cmp, Build(l), Build(r));
  }

  lemma ShiftComparison(cmp: Comparison, t: Tree, rest: seq<Token>)
    ensures After(Bottom, t, [Compare(cmp)] + rest) == Operand(Comparing(t, cmp), rest)
  {
    assert ([Compare(cmp)] + rest)[1..] == rest;
  }

  lemma EndComparison(cmp: Comparison, first: Tree, t: Tree)
    ensures After(Comparing(first, cmp), t, []) == Some(Cmp(cmp, first, t))
  {}

  // ----- whatever is read was written so -----

  /** The text is an expression, or two with a comparison between them, and t is its tree. */
  predicate Spells(e: Nested, text: seq<Token>, t: Tree) {
    Literals(e) && Spell(e) == text && Build(e) == t
  }

  predicate SpellsComparison(cmp: Comparison, l: Nested, r: Nested, text: seq<Token>, t: Tree) {
    Literals(l) && Literals(r) && text == Spell(l) + [Compare(cmp)] + Spell(r) && t == Cmp(cmp, Build(l), Build(r))
  }

  ghost predicate Grammatical(text: seq<Token>, t: Tree) {
    (exists e :: Spells(e, text, t)) || (exists cmp, l, r :: SpellsComparison(cmp, l, r, text, t))
  }

  /** The parser's stack with expressions in place of their trees. */
  datatype Pending =
    | Start
    | Operated(left: Nested, op: Operator, below: Pending)
    | Signed(below: Pending)
    | Opened(below: Pending)
    | Compared(first: Nested, cmp: Comparison)

  predicate PendingOk(p: Pending) {
    match p
    case Start => true
    case Operated(left, op, below) =>
      Literals(left) && Level(left) >= OpLevel(op) && PendingOk(below) && FitsAfter(StackOf(below), Infix(op, left, left))
    case Signed(below) => PendingOk(below)
    case Opened(below) => PendingOk(below)
    case Compared(first, _) => Literals(first)
  }

  function StackOf(p: Pending): Stack
    decreases p
  {
    match p
    case Start => Bottom
    case Operated(left, op, below) => Binary(if Literals(left) then Build(left) else Int(0), op, StackOf(below))
    case Signed(below) => Negation(StackOf(below))
    case Opened(below) => Paren(StackOf(below))
    case Compared(first, cmp) => Comparing(if Literals(first) then Build(first) else Int(0), cmp)
  }

  /** What was read before. */
  function Read(p: Pending): seq<Token> {
    match p
    case Start => []
    case Operated(left, op, below) => Read(below) + (Spell(left) + [Sign(op)])
    case Signed(below) => Read(below) + [Sign(Sub)]
    case Opened(below) => Read(below) + [LeftParen]
    case Compared(first, cmp) => Spell(first) + [Compare(cmp)]
  }

  lemma {:induction false} OperandSpells(p: Pending, input: seq<Token>)
    requires PendingOk(p) && Lexed(input) && Operand(StackOf(p), input).Some?
    ensures Grammatical(Read(p) + input, Operand(StackOf(p), input).value)
    decreases |input|, p, 0
  {
    hide Grammatical, Read, After;
    var rest := input[1..];
    assert Lexed(rest);
    FirstToken(p, input);
    match input[0]
    case Num(n) =>
      AfterSpells(p, Number(n), rest);
    case Name(x) =>
      AfterSpells(p, Word(x), rest);
    case Sign(op) =>
      OperandSpells(Signed(p), rest);
    case LeftParen =>
      OperandSpells(Opened(p), rest);
    case _ =>
  }

  /** After the first token of an operand. */
  lemma FirstToken(p: Pending, input: seq<Token>)
    requires input != []
    ensures input == [input[0]] + input[1..]
    ensures input[0] == Sign(Sub) ==> Read(Signed(p)) + input[1..] == Read(p) + input
    ensures input[0] == LeftParen ==> Read(Opened(p)) + input[1..] == Read(p) + input
  {
    Reassociated(Read(p), [input[0]], input[1..]);
  }

  /** The next operator is shifted. */
  lemma {:induction false} ShiftSpells(p: Pending, e: Nested, input: seq<Token>)
    requires PendingOk(p) && Literals(e) && FitsBefore(e, input) && Lexed(input) && input != [] && input[0].Sign?
    requires FitsAfter(StackOf(p), Infix(input[0].op, e, e))
    requires Operand(Binary(Build(e), input[0].op, StackOf(p)), input[1..]).Some?
    ensures Grammatical(Read(p) + (Spell(e) + input), Operand(Binary(Build(e), input[0].op, StackOf(p)), input[1..]).value)
    decreases |input|, p, 0
  {
    hide Grammatical, Operand, Build, Spell;
    var rest := input[1..];
    assert Lexed(rest);
    OperandSpells(Operated(e, input[0].op, p), rest);
    ShiftedText(p, e, input);
  }

  lemma {:induction false} AfterSpells(p: Pending, e: Nested, input: seq<Token>)
    requires PendingOk(p) && Literals(e) && Lexed(input) && FitsAfter(StackOf(p), e) && FitsBefore(e, input)
    requires After(StackOf(p), Build(e), input).Some?
    ensures Grammatical(Read(p) + (Spell(e) + input), After(StackOf(p), Build(e), input).value)
    decreases |input|, p, 1
  {
    hide Grammatical, Operand, Spell, Read;
    var rest := if input == [] then [] else input[1..];
    assert Lexed(rest);
    match p
    case Signed(below) =>
      MkNegBuilt(Build(e));
      AfterSpells(below, Minus(e), input);
      SignedText(below, e, input);
    case Operated(left, op, below) =>
      if input != [] && input[0].Sign? && Prec(input[0].op) > Prec(op) {
        ShiftSpells(p, e, input);
      } else {
        AfterSpells(below, Infix(op, left, e), input);
        OperatedText(left, op, below, e, input);
      }
    case Opened(below) =>
      if input[0].RightParen? {
        AfterSpells(below, Grouped(e), rest);
        OpenedText(below, e, input);
      } else {
        ShiftSpells(p, e, input);
      }
    case Start =>
      if input == [] {
        WholeExpression(e);
        StartText(e, input);
      } else if input[0].Sign? {
        ShiftSpells(p, e, input);
      } else {
        OperandSpells(Compared(e, input[0].cmp), rest);
        StartText(e, input);
      }
    case Compared(first, cmp) =>
      if input == [] {
        WholeComparison(cmp, first, e);
        ComparedText(first, cmp, e);
      } else {
        ShiftSpells(p, e, input);
      }
  }

  lemma ShiftedText(p: Pending, e: Nested, input: seq<Token>)
    requires input != [] && input[0].Sign?
    ensures Read(Operated(e, input[0].op, p)) + input[1..] == Read(p) + (Spell(e) + input)
  {
    hide Spell;
    assert input == [input[0]] + input[1..];
    Reassociated(Read(p), Spell(e) + [input[0]], input[1..]);
    Reassociated(Spell(e), [input[0]], input[1..]);
  }

  lemma SignedText(below: Pending, e: Nested, input: seq<Token>)
    requires Level(e) >= 3
    ensures Read(Signed(below)) + (Spell(e) + input) == Read(below) + (Spell(Minus(e)) + input)
  {
    Reassociated(Read(below), [Sign(Sub)], Spell(e) + input);
    Reassociated([Sign(Sub)], Spell(e), input);
  }

  lemma OperatedText(left: Nested, op: Operator, below: Pending, e: Nested, input: seq<Token>)
    requires Level(left) >= OpLevel(op) && Level(e) > OpLevel(op)
    ensures Read(Operated(left, op, below)) + (Spell(e) + input) == Read(below) + (Spell(Infix(op, left, e)) + input)
  {
    var l, r := Spell(left) + [Sign(op)], Spell(e);
    assert Spell(Infix(op, left, e)) == l + r;
    Reassociated(Read(below), l, r + input);
    Reassociated(l, r, input);
  }

  lemma OpenedText(below: Pending, e: Nested, input: seq<Token>)
    requires input != [] && input[0] == RightParen
    ensures Read(Opened(below)) + (Spell(e) + input) == Read(below) + (Spell(Grouped(e)) + input[1..])
  {
    var x := Spell(e);
    assert input == [RightParen] + input[1..];
    Reassociated(Read(below), [LeftParen], x + input);
    Reassociated([LeftParen], x, input);
    Reassociated([LeftParen] + x, [RightParen], input[1..]);
  }

  lemma StartText(e: Nested, input: seq<Token>)
    ensures input == [] ==> Read(Start) + (Spell(e) + input) == Spell(e)
    ensures input != [] && input[0].Compare? ==>
      Read(Start) + (Spell(e) + input) == Read(Compared(e, input[0].cmp)) + input[1..]
  {
    if input != [] {
      assert input == [input[0]] + input[1..];
    }
  }

  lemma ComparedText(first: Nested, cmp: Comparison, e: Nested)
    ensures Read(Compared(first, cmp)) + (Spell(e) + []) == Spell(first) + [Compare(cmp)] + Spell(e)
  {}

  lemma WholeExpression(e: Nested)
    requires Literals(e)
    ensures Grammatical(Spell(e), Build(e))
  {
    assert Spells(e, Spell(e), Build(e));
  }

  lemma WholeComparison(cmp: Comparison, l: Nested, r: Nested)
    requires Literals(l) && Literals(r)
    ensures Grammatical(Spell(l) + [Compare(cmp)] + Spell(r), Cmp(cmp, Build(l), Build(r)))
  {
    assert SpellsComparison(cmp, l, r, Spell(l) + [Compare(cmp)] + Spell(r), Cmp(cmp, Build(l), Build(r)));
  }

  /** The parser accepts exactly what the grammar derives, and gives the tree of its nesting. */
  lemma ParseExactly(input: seq<Token>, t: Tree)
    requires Lexed(input)
    ensures Parse(input) == Some(t) <==> Grammatical(input, t)
  {
    if Parse(input) == Some(t) {
      OperandSpells(Start, input);
      assert Read(Start) + input == input;
    }
    if e :| Spells(e, input, t) {
      ParseSpelled(e);
    }
    if cmp, l, r :| SpellsComparison(cmp, l, r, input, t) {
      ParseComparison(cmp, l, r);
    }
  }
}
