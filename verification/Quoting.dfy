/** conv.c, %S and %#L: strings and lists printed so that the lexer reads them back.  Which
    bytes are printable is the C library's choice, so it is a parameter. */
module Quoting {
  import opened CStrings
  import opened Lexing

  datatype Printing = Begin | InQuotes | Unquoted

  function OctalText(c: Byte): CString {
    if c < 8 then ['0' as int + c]
    else if c < 64 then ['0' as int + c / 8, '0' as int + c % 8]
    else ['0' as int + c / 64, '0' as int + c / 8 % 8, '0' as int + c % 8]
  }

  function EscapeText(c: Byte): CString {
    [BACKSLASH] +
    if c == 7 then ['a' as int]
    else if c == 8 then ['b' as int]
    else if c == 12 then ['f' as int]
    else if c == 10 then ['n' as int]
    else if c == 13 then ['r' as int]
    else if c == 9 then ['t' as int]
    else if c == 27 then ['e' as int]
    else OctalText(c)
  }

  function QuotedByte(c: Byte): CString {
    if c == QUOTE then [QUOTE, QUOTE] else [c]
  }

  /** What goes before a byte, in each state of the printer. */
  function Lead(state: Printing, printed: bool): CString {
    match state
    case Begin => if printed then [QUOTE] else []
    case InQuotes => if printed then [] else [QUOTE, CARET]
    case Unquoted => if printed then [CARET, QUOTE] else [CARET]
  }

  function EmitByte(state: Printing, c: Byte, printed: bool): CString {
    Lead(state, printed) + if printed then QuotedByte(c) else EscapeText(c)
  }

  function EmitEnd(state: Printing): CString {
    match state
    case Begin => [QUOTE, QUOTE]
    case InQuotes => [QUOTE]
    case Unquoted => []
  }

  /** What is still printed for s. */
  function Emit(s: CString, printable: Byte -> bool, state: Printing): CString {
    if s == [] then EmitEnd(state)
    else EmitByte(state, s[0], printable(s[0])) + Emit(s[1..], printable, if printable(s[0]) then InQuotes else Unquoted)
  }

  predicate Bare(s: CString) {
    s != [] && forall i :: 0 <= i < |s| ==> !NonWord(s[i]) && s[i] != '@' as int
  }

  function Print(s: CString, printable: Byte -> bool, alt: bool): CString {
    if !alt && Bare(s) then s else Emit(s, printable, Begin)
  }

  /** %S */
  method Sconv(str: CString, printable: Byte -> bool, alt: bool) returns (out: CString)
    ensures out == Print(str, printable, alt)
  {
    hide NonWord, Emit;
    var quote := alt || At(str, 0) == 0;
    var t := 0;
    while !quote && At(str, t) != 0
      invariant t <= |str| && (!quote ==> forall i :: 0 <= i < t ==> !NonWord(str[i]) && str[i] != '@' as int)
      invariant (alt ==> quote) && (quote ==> alt || !Bare(str))
      decreases |str| - t, !quote
    {
      if NonWord(str[t]) || str[t] == '@' as int {
        quote := true;
      } else {
        t := t + 1;
      }
    }
    if quote {
      out := PutQuoted(str, printable);
    } else {
      out := str;
    }
  }

  /** The quoting form. */
  method PutQuoted(s: CString, printable: Byte -> bool) returns (out: CString)
    ensures out == Emit(s, printable, Begin)
  {
    hide Emit, EmitByte;
    var state := Begin;
    out := [];
    var t := 0;
    EmitStart(s, printable);
    while At(s, t) != 0
      invariant t <= |s| && out + Emit(s[t..], printable, state) == Emit(s, printable, Begin)
      decreases |s| - t
    {
      assert s[t..][1..] == s[t + 1..];
      EmitStep(out, s[t..], printable, state);
      out, state := PutByte(out, state, s[t], printable(s[t]));
      t := t + 1;
    }
    assert s[t..] == [];
    NothingLeft(printable, state);
    match state {
      case Begin => out := out + [QUOTE, QUOTE];
      case InQuotes => out := out + [QUOTE];
      case Unquoted => assert out + [] == out;
    }
  }

  /** One turn of the loop. */
  method PutByte(out0: CString, state0: Printing, c: Byte, printed: bool) returns (out: CString, state: Printing)
    ensures out == out0 + EmitByte(state0, c, printed) && state == if printed then InQuotes else Unquoted
  {
    hide EscapeText;
    out, state := out0, state0;
    if !printed {
      if state == InQuotes {
        out := out + [QUOTE];
      }
      if state != Begin {
        out := out + [CARET];
      }
      out := out + EscapeText(c);
      state := Unquoted;
    } else {
      if state == Unquoted {
        out := out + [CARET];
      }
      if state != InQuotes {
        out := out + [QUOTE];
      }
      if c == QUOTE {
        out := out + [QUOTE];
      }
      out := out + [c];
      state := InQuotes;
    }
  }

  lemma EmitStart(s: CString, printable: Byte -> bool)
    ensures s[0..] == s && [] + Emit(s, printable, Begin) == Emit(s, printable, Begin)
  {
    hide Emit;
  }

  lemma EmitStep(out: CString, s: CString, printable: Byte -> bool, state: Printing)
    requires s != []
    ensures out + Emit(s, printable, state) ==
      (out + EmitByte(state, s[0], printable(s[0]))) + Emit(s[1..], printable, if printable(s[0]) then InQuotes else Unquoted)
  {
    hide EmitByte;
  }

  lemma NothingLeft(printable: Byte -> bool, state: Printing)
    ensures Emit([], printable, state) == EmitEnd(state)
  {}

  // ----- reading back -----

  /** The lexer gives these tokens and comes to this state. */
  ghost predicate Reads(st: State, tokens: seq<Token>, end: State)
    decreases |tokens|
  {
    if tokens == [] then st == end
    else Lex(st).0 == tokens[0] && Reads(Lex(st).1, tokens[1..], end)
  }

  /** The bytes that one quoted string or escape stands for. */
  function PieceLength(s: CString, printable: Byte -> bool): (n: nat)
    requires s != []
    ensures 1 <= n <= |s|
  {
    if printable(s[0]) then PrintableLength(s, printable) else 1
  }

  function PrintableLength(s: CString, printable: Byte -> bool): (n: nat)
    ensures n <= |s| && (s != [] && printable(s[0]) ==> n > 0)
  {
    if s != [] && printable(s[0]) then 1 + PrintableLength(s[1..], printable) else 0
  }

  function Tail(s: CString, printable: Byte -> bool): seq<Token>
    decreases |s|
  {
    if s == [] then []
    else var n := PieceLength(s, printable); [Caret, QWord(s[..n])] + Tail(s[n..], printable)
  }

  function Tokens(s: CString, printable: Byte -> bool, alt: bool): seq<Token> {
    if !alt && Bare(s) then [Classify(s)]
    else if s == [] then [QWord([])]
    else var n := PieceLength(s, printable); [QWord(s[..n])] + Tail(s[n..], printable)
  }

  /** An escape that is not a number. */
  predicate NamedEscape(c: Byte) {
    c in {7, 8, 9, 10, 12, 13, 27}
  }

  /** What may follow the quoting form: no quote after a closing quote, and no octal digit after
      a number; after any other escape, anything. */
  predicate Stops(s: CString, printable: Byte -> bool, after: CString) {
    after == [] ||
    if s == [] || printable(s[|s| - 1]) then after[0] != QUOTE
    else NamedEscape(s[|s| - 1]) || !OctalDigit(after[0])
  }

  /** What may follow a printed string that is read where = may belong to a word or not. */
  predicate Fits(s: CString, printable: Byte -> bool, alt: bool, skipequals: bool, after: CString) {
    if !alt && Bare(s) then after == [] || !InWord(skipequals, after) else Stops(s, printable, after)
  }

  lemma OctalStep(n: nat, d: Byte, rest: CString)
    requires OctalDigit(d)
    ensures Octal(n, [d] + rest) == Octal(n * 8 + d - '0' as int, rest)
  {
    assert ([d] + rest)[1..] == rest;
  }

  /** Reading the digits the printer put out leaves the number, and then whatever follows. */
  lemma ReadOctal(c: Byte, t: CString)
    ensures Octal(0, OctalText(c) + t) == Octal(c, t)
  {
    hide Octal;
    var low := ['0' as int + c % 8] + t;
    OctalStep(c / 8, '0' as int + c % 8, t);
    if c >= 8 {
      OctalStep(c / 64, '0' as int + c / 8 % 8, low);
      if c >= 64 {
        OctalStep(0, '0' as int + c / 64, ['0' as int + c / 8 % 8] + low);
        assert OctalText(c) + t == ['0' as int + c / 64] + (['0' as int + c / 8 % 8] + low);
      } else {
        assert OctalText(c) + t == ['0' as int + c / 8 % 8] + low;
      }
    }
  }

  lemma OctalEnd(n: nat, t: CString)
    ensures t == [] || !OctalDigit(t[0]) ==> Octal(n, t) == (n, t)
    ensures t != [] && OctalDigit(t[0]) ==> |Octal(n, t).1| < |t|
  {}

  /** An escape is read back as its byte, unless a digit runs on from a number. */
  lemma ReadEscape(c: Byte, t: CString)
    ensures var r := Escaped(EscapeText(c)[1..] + t);
      if NamedEscape(c) || t == [] || !OctalDigit(t[0]) then r == Some(([c], t))
      else r.Some? ==> |r.value.1| < |t|
  {
    hide Octal;
    var rest := EscapeText(c)[1..] + t;
    if NamedEscape(c) {
      assert rest[1..] == t;
    } else {
      assert rest == OctalText(c) + t;
      ReadOctal(c, t);
      OctalEnd(c, t);
    }
  }

  /** What follows a closed piece starts with a caret, if anything is left to print. */
  lemma NextIsCaret(s: CString, printable: Byte -> bool, after: CString)
    ensures s == [] ==> Emit(s, printable, Unquoted) + after == after
    ensures s != [] ==> var text := Emit(s, printable, Unquoted) + after;
      text != [] && text[0] == CARET && CARET != QUOTE && !OctalDigit(CARET)
  {
    hide EscapeText, QuotedByte;
    if s == [] {
      assert Emit(s, printable, Unquoted) + after == after;
    } else {
      assert EmitByte(Unquoted, s[0], printable(s[0]))[0] == CARET;
    }
  }

  lemma Assoc(a: CString, b: CString, c: CString)
    ensures (a + b) + c == a + (b + c)
  {}

  /** The same byte in another state has only another lead. */
  lemma Leads(c: Byte)
    ensures EmitByte(InQuotes, c, true) == QuotedByte(c) && EmitByte(Begin, c, true) == [QUOTE] + QuotedByte(c)
    ensures EmitByte(Begin, c, false) == EscapeText(c) && EmitByte(Unquoted, c, false) == [CARET] + EscapeText(c)
    ensures EmitByte(InQuotes, c, false) == [QUOTE] + EmitByte(Unquoted, c, false)
  {
    hide QuotedByte, EscapeText;
    assert [] + QuotedByte(c) == QuotedByte(c) && [] + EscapeText(c) == EscapeText(c);
  }

  lemma EmitInside(s: CString, printable: Byte -> bool, after: CString)
    requires s != [] && printable(s[0])
    ensures Emit(s, printable, InQuotes) + after == QuotedByte(s[0]) + (Emit(s[1..], printable, InQuotes) + after)
    ensures Emit(s, printable, Begin) + after == [QUOTE] + (Emit(s, printable, InQuotes) + after)
  {
    hide EmitByte, QuotedByte;
    var rest := Emit(s[1..], printable, InQuotes);
    Leads(s[0]);
    Assoc(QuotedByte(s[0]), rest, after);
    Assoc([QUOTE], QuotedByte(s[0]), rest);
    Assoc([QUOTE], Emit(s, printable, InQuotes), after);
  }

  lemma EmitOutside(s: CString, printable: Byte -> bool, after: CString)
    requires s == [] || !printable(s[0])
    ensures Emit(s, printable, InQuotes) + after == [QUOTE] + (Emit(s, printable, Unquoted) + after)
    ensures s != [] ==> Emit(s, printable, Begin) + after == EscapeText(s[0]) + (Emit(s[1..], printable, Unquoted) + after)
  {
    hide EmitByte, EscapeText;
    if s != [] {
      var rest := Emit(s[1..], printable, Unquoted);
      Leads(s[0]);
      Assoc(EscapeText(s[0]), rest, after);
      Assoc([QUOTE], EmitByte(Unquoted, s[0], false), rest);
      Assoc([QUOTE], Emit(s, printable, Unquoted), after);
    }
  }

  /** A quoted string is read up to the quote that the printer closes it with, unless another
      quote follows that one; then the reader goes on. */
  lemma {:induction false} ReadQuoted(s: CString, printable: Byte -> bool, after: CString)
    ensures var n, r := PrintableLength(s, printable), Quoted(Emit(s, printable, InQuotes) + after);
      if n < |s| || after == [] || after[0] != QUOTE then r == Some((s[..n], Emit(s[n..], printable, Unquoted) + after))
      else r.Some? ==> |r.value.1| < |after|
  {
    hide Emit, Quoted, QuotedByte;
    if s == [] || !printable(s[0]) {
      NextIsCaret(s, printable, after);
      EmitOutside(s, printable, after);
      assert s[0..] == s;
      ClosingQuote(Emit(s, printable, Unquoted) + after);
    } else {
      var more := Emit(s[1..], printable, InQuotes) + after;
      EmitInside(s, printable, after);
      ReadQuoted(s[1..], printable, after);
      InsideQuotes(s[0], more);
      var n := PrintableLength(s[1..], printable);
      assert [s[0]] + s[1..][..n] == s[..n + 1] && s[1..][n..] == s[n + 1..];
    }
  }

  lemma ClosingQuote(rest: CString)
    ensures rest == [] || rest[0] != QUOTE ==> Quoted([QUOTE] + rest) == Some(([], rest))
    ensures rest != [] && rest[0] == QUOTE ==>
      var r := Quoted([QUOTE] + rest); r.Some? ==> |r.value.1| < |rest|
  {
    assert ([QUOTE] + rest)[1..] == rest;
    if rest != [] {
      assert ([QUOTE] + rest)[2..] == rest[1..];
    }
  }

  lemma InsideQuotes(c: Byte, rest: CString)
    ensures Quoted(QuotedByte(c) + rest) == Before([c], Quoted(rest))
  {
    var text := QuotedByte(c) + rest;
    if c == QUOTE {
      assert text[2..] == rest;
    } else {
      assert text[1..] == rest;
    }
  }

  lemma LexCaret(st: State, rest: CString)
    requires st.rest == [CARET] + rest
    ensures Lex(st) == (Caret, st.(rest := rest, w := NW))
  {
    assert st.rest[1..] == rest;
  }

  lemma LexQuote(st: State, rest: CString)
    requires st.rest == [QUOTE] + rest && st.w == NW
    ensures Lex(st) == QuotedWord(st, Quoted(rest))
  {
    hide Quoted;
    assert st.rest[1..] == rest;
  }

  lemma LexEscape(st: State, rest: CString)
    requires st.rest == [BACKSLASH] + rest && st.w == NW && rest != [] && rest[0] != NEWLINE
    ensures Lex(st) == QuotedWord(st, Escaped(rest))
  {
    hide Escaped;
    assert st.rest[1..] == rest;
  }

  /** One piece, from the state between words. */
  lemma ReadPiece(s: CString, printable: Byte -> bool, after: CString, st: State)
    requires s != [] && st.w == NW && st.rest == Emit(s, printable, Begin) + after
    ensures var n := PieceLength(s, printable);
      if n < |s| || Stops(s, printable, after) then
        Lex(st) == (QWord(s[..n]), State(Emit(s[n..], printable, Unquoted) + after, RW, true, st.skipdual))
      else Lex(st).0 == ScanError || |Lex(st).1.rest| < |after|
  {
    hide Lex, Emit, PieceLength;
    LastOfPiece(s, printable);
    if printable(s[0]) {
      ReadQuotedPiece(s, printable, after, st);
    } else {
      ReadEscapePiece(s, printable, after, st);
    }
  }

  lemma ReadQuotedPiece(s: CString, printable: Byte -> bool, after: CString, st: State)
    requires s != [] && printable(s[0]) && st.w == NW && st.rest == Emit(s, printable, Begin) + after
    ensures var n := PrintableLength(s, printable);
      if n < |s| || after == [] || after[0] != QUOTE then
        Lex(st) == (QWord(s[..n]), State(Emit(s[n..], printable, Unquoted) + after, RW, true, st.skipdual))
      else Lex(st).0 == ScanError || |Lex(st).1.rest| < |after|
  {
    hide Quoted, Lex, Emit, PrintableLength;
    EmitInside(s, printable, after);
    LexQuote(st, Emit(s, printable, InQuotes) + after);
    ReadQuoted(s, printable, after);
  }

  lemma ReadEscapePiece(s: CString, printable: Byte -> bool, after: CString, st: State)
    requires s != [] && !printable(s[0]) && st.w == NW && st.rest == Emit(s, printable, Begin) + after
    ensures if |s| > 1 || after == [] || NamedEscape(s[0]) || !OctalDigit(after[0]) then
        Lex(st) == (QWord(s[..1]), State(Emit(s[1..], printable, Unquoted) + after, RW, true, st.skipdual))
      else Lex(st).0 == ScanError || |Lex(st).1.rest| < |after|
  {
    hide EscapeText, Lex, Emit;
    EmitOutside(s, printable, after);
    LexEscapeText(st, s[0], Emit(s[1..], printable, Unquoted) + after);
    NextIsCaret(s[1..], printable, after);
    assert s[..1] == [s[0]];
  }

  lemma LexEscapeText(st: State, c: Byte, more: CString)
    requires st.w == NW && st.rest == EscapeText(c) + more
    ensures if NamedEscape(c) || more == [] || !OctalDigit(more[0]) then
        Lex(st) == (QWord([c]), State(more, RW, true, st.skipdual))
      else Lex(st).0 == ScanError || |Lex(st).1.rest| < |more|
  {
    hide EscapeText, Escaped, Lex;
    var letters := EscapeLetters(c);
    Assoc([BACKSLASH], letters, more);
    LexEscape(st, letters + more);
    ReadEscape(c, more);
  }

  /** A piece has printable bytes only, or is one other byte. */
  lemma LastOfPiece(s: CString, printable: Byte -> bool)
    requires s != []
    ensures var n := PieceLength(s, printable);
      if printable(s[0]) then printable(s[n - 1]) && n == PrintableLength(s, printable) else n == 1
  {
    if printable(s[0]) {
      LastPrintable(s, printable);
    }
  }

  lemma {:induction false} LastPrintable(s: CString, printable: Byte -> bool)
    requires s != [] && printable(s[0])
    ensures printable(s[PrintableLength(s, printable) - 1])
  {
    if |s| > 1 && printable(s[1]) {
      LastPrintable(s[1..], printable);
    }
  }

  lemma EscapeLetters(c: Byte) returns (letters: CString)
    ensures letters != [] && letters[0] != NEWLINE && EscapeText(c) == [BACKSLASH] + letters && letters == EscapeText(c)[1..]
  {
    letters := EscapeText(c)[1..];
  }

  /** The pieces after the first, each behind a caret. */
  lemma {:induction false} ReadTail(s: CString, printable: Byte -> bool, after: CString, skipdual: bool)
    ensures (s == [] || Stops(s, printable, after)) <==>
      Reads(State(Emit(s, printable, Unquoted) + after, RW, true, skipdual), Tail(s, printable), State(after, RW, true, skipdual))
    decreases |s|
  {
    hide Lex, EscapeText, Stops;
    var st, end := State(Emit(s, printable, Unquoted) + after, RW, true, skipdual), State(after, RW, true, skipdual);
    if s == [] {
      assert st.rest == after;
    } else {
      var n := PieceLength(s, printable);
      var rest := Emit(s, printable, Begin) + after;
      assert st.rest == [CARET] + rest;
      LexCaret(st, rest);
      ReadPiece(s, printable, after, st.(rest := rest, w := NW));
      ReadTail(s[n..], printable, after, skipdual);
      StopsRest(s, n, printable, after);
      assert Tail(s, printable) == [Caret, QWord(s[..n])] + Tail(s[n..], printable);
      ReadsTwo(st, Caret, QWord(s[..n]), Tail(s[n..], printable), end);
      if n == |s| && !Stops(s, printable, after) {
        assert s[n..] == [] && Tail(s[n..], printable) == [];
        ReadsNothing(Lex(Lex(st).1).1, end);
      }
    }
  }

  lemma StopsRest(s: CString, n: nat, printable: Byte -> bool, after: CString)
    requires 1 <= n <= |s|
    ensures n < |s| ==> (Stops(s[n..], printable, after) <==> Stops(s, printable, after))
  {}

  lemma ReadsNothing(st: State, end: State)
    ensures Reads(st, [], end) <==> st == end
  {}

  lemma ReadsTwo(st: State, t1: Token, t2: Token, tokens: seq<Token>, end: State)
    ensures Reads(st, [t1, t2] + tokens, end) <==>
      Lex(st).0 == t1 && Lex(Lex(st).1).0 == t2 && Reads(Lex(Lex(st).1).1, tokens, end)
  {
    hide Lex;
    assert ([t1, t2] + tokens)[1..] == [t2] + tokens;
    assert ([t2] + tokens)[1..] == tokens;
  }

  /** The quoting form is read back as its pieces exactly when what follows does not run on
      from the last of them. */
  lemma ReadQuotingForm(s: CString, printable: Byte -> bool, after: CString, st: State)
    requires st.w == NW && st.rest == Emit(s, printable, Begin) + after
    ensures Reads(st, Tokens(s, printable, true), State(after, RW, true, st.skipdual)) <==> Stops(s, printable, after)
  {
    hide Lex, EscapeText, Quoted;
    var end := State(after, RW, true, st.skipdual);
    if s == [] {
      assert st.rest == [QUOTE] + ([QUOTE] + after);
      LexQuote(st, [QUOTE] + after);
      ClosingQuote(after);
      ReadsOne(st, QWord([]), end);
    } else {
      hide Stops;
      var n := PieceLength(s, printable);
      ReadPiece(s, printable, after, st);
      ReadTail(s[n..], printable, after, st.skipdual);
      StopsRest(s, n, printable, after);
      assert Tokens(s, printable, true)[0] == QWord(s[..n]) && Tokens(s, printable, true)[1..] == Tail(s[n..], printable);
      if n == |s| && !Stops(s, printable, after) {
        assert s[n..] == [] && s[..n] == s && Tail(s[n..], printable) == [];
        ReadsOne(st, QWord(s), end);
        assert Tokens(s, printable, true) == [QWord(s)];
      }
    }
  }

  lemma ReadsOne(st: State, token: Token, end: State)
    ensures Reads(st, [token], end) <==> Lex(st) == (token, end)
  {
    hide Lex;
    assert [token][1..] == [];
  }

  /** A bare word is read up to what does not belong to a word. */
  lemma {:induction false} BareLength(s: CString, after: CString, skipequals: bool)
    requires forall i :: 0 <= i < |s| ==> !NonWord(s[i])
    ensures WordLength(s + after, skipequals) == |s| <==> after == [] || !InWord(skipequals, after)
    ensures WordLength(s + after, skipequals) >= |s|
  {
    hide NonWord;
    if s == [] {
      assert s + after == after;
    } else {
      assert (s + after)[1..] == s[1..] + after;
      BareLength(s[1..], after, skipequals);
    }
  }

  function WordAfter(s: CString, alt: bool): WordState {
    if !alt && Bare(s) && !Classify(s).Word? then KW else RW
  }

  lemma ReadBare(s: CString, after: CString, st: State)
    requires Bare(s) && st.w == NW && st.rest == s + after
    ensures Reads(st, [Classify(s)], State(after, WordAfter(s, false), true, st.skipdual)) <==>
      after == [] || !InWord(st.skipequals, after)
  {
    hide Classify;
    assert st.rest[1..] == s[1..] + after;
    BareLength(s[1..], after, st.skipequals);
    assert !NonWord(st.rest[0]);
    assert BlanksAt(st.rest) == 0;
    assert Lex(st) == ReadWord(st);
    ReadsOne(st, Classify(s), State(after, WordAfter(s, false), true, st.skipdual));
    hide Lex, Reads, WordLength, NonWord, InWord;
    var n := 1 + WordLength(st.rest[1..], st.skipequals);
    if n == |s| {
      assert st.rest[..n] == s && st.rest[n..] == after;
    } else {
      assert |st.rest[n..]| < |after|;
    }
  }

  /** Either form. */
  lemma ReadPrinted(s: CString, printable: Byte -> bool, alt: bool, after: CString, st: State)
    requires st.w == NW && st.rest == Print(s, printable, alt) + after
    ensures Reads(st, Tokens(s, printable, alt), State(after, WordAfter(s, alt), true, st.skipdual)) <==>
      Fits(s, printable, alt, st.skipequals, after)
  {
    hide Lex, Classify, Emit, Stops, InWord;
    if !alt && Bare(s) {
      ReadBare(s, after, st);
    } else {
      ReadQuotingForm(s, printable, after, st);
    }
  }

  // ----- words of the grammar -----

  /** A unit that carets can join. */
  function Sword(token: Token): Option<CString> {
    match token
    case Word(text) => Some(text)
    case QWord(text) => Some(text)
    case Keyword(text) => Some(text)
    case _ => None
  }

  /** More units, each behind a caret, joined to the text so far. */
  function Joined(text: CString, tokens: seq<Token>): (r: Option<(CString, seq<Token>)>)
    ensures r.Some? ==> |r.value.1| <= |tokens|
    decreases |tokens|
  {
    if tokens == [] || tokens[0] != Caret then Some((text, tokens))
    else if |tokens| == 1 || Sword(tokens[1]).None? then None
    else Joined(text + Sword(tokens[1]).value, tokens[2..])
  }

  /** A list of words. */
  function Words(tokens: seq<Token>): Option<seq<CString>>
    decreases |tokens|
  {
    if tokens == [] then Some([])
    else if Sword(tokens[0]).None? then None
    else
      var r := Joined(Sword(tokens[0]).value, tokens[1..]);
      if r.None? then None
      else
        var rest := Words(r.value.1);
        if rest.None? then None else Some([r.value.0] + rest.value)
  }

  lemma JoinedStep(text: CString, piece: CString, tokens: seq<Token>)
    ensures Joined(text, [Caret, QWord(piece)] + tokens) == Joined(text + piece, tokens)
  {
    var all := [Caret, QWord(piece)] + tokens;
    assert all[2..] == tokens && all[1] == QWord(piece);
  }

  lemma {:induction false} JoinedTail(text: CString, s: CString, printable: Byte -> bool, tokens: seq<Token>)
    requires tokens == [] || tokens[0] != Caret
    ensures Joined(text, Tail(s, printable) + tokens) == Some((text + s, tokens))
    decreases |s|
  {
    hide PieceLength;
    if s == [] {
      assert Tail(s, printable) + tokens == tokens && text + s == text;
    } else {
      JoinedPiece(text, s, printable, tokens);
      var n := PieceLength(s, printable);
      JoinedTail(text + s[..n], s[n..], printable, tokens);
      assert text + s[..n] + s[n..] == text + s;
    }
  }

  lemma JoinedPiece(text: CString, s: CString, printable: Byte -> bool, tokens: seq<Token>)
    requires s != []
    ensures var n := PieceLength(s, printable);
      Joined(text, Tail(s, printable) + tokens) == Joined(text + s[..n], Tail(s[n..], printable) + tokens)
  {
    hide Joined, PieceLength;
    var n := PieceLength(s, printable);
    var rest := Tail(s[n..], printable);
    assert Tail(s, printable) == [Caret, QWord(s[..n])] + rest;
    assert ([Caret, QWord(s[..n])] + rest) + tokens == [Caret, QWord(s[..n])] + (rest + tokens);
    JoinedStep(text, s[..n], rest + tokens);
  }

  lemma WordsStep(token: Token, body: seq<Token>, s: CString, tokens: seq<Token>)
    requires Sword(token).Some? && Joined(Sword(token).value, body) == Some((s, tokens))
    ensures var all := [token] + body;
      Words(all) == if Words(tokens).None? then None else Some([s] + Words(tokens).value)
  {
    hide Joined, Sword;
    assert ([token] + body)[1..] == body;
  }

  /** The tokens of a printed string are one word: the string. */
  lemma WordsOfTokens(s: CString, printable: Byte -> bool, alt: bool, tokens: seq<Token>)
    requires tokens == [] || tokens[0] != Caret
    ensures var all := Tokens(s, printable, alt) + tokens;
      && all[0] != Caret
      && Words(all) == if Words(tokens).None? then None else Some([s] + Words(tokens).value)
  {
    hide Classify, Words, Bare, Tail;
    if !alt && Bare(s) {
      BareIsSword(s);
      WordsStep(Classify(s), tokens, s, tokens);
    } else if s == [] {
      WordsStep(QWord([]), tokens, s, tokens);
    } else {
      hide Joined;
      var n := PieceLength(s, printable);
      var body := Tail(s[n..], printable) + tokens;
      JoinedTail(s[..n], s[n..], printable, tokens);
      assert s[..n] + s[n..] == s;
      WordsStep(QWord(s[..n]), body, s, tokens);
      assert Tokens(s, printable, alt) + tokens == [QWord(s[..n])] + body;
    }
  }

  lemma BareIsSword(s: CString)
    requires Bare(s)
    ensures Sword(Classify(s)) == Some(s)
  {
    assert Bytes("@")[0] == '@' as int && s[0] != '@' as int;
  }

  /** A printed string is read back as itself, exactly when what follows it fits. */
  lemma ReadBack(s: CString, printable: Byte -> bool, alt: bool, after: CString, st: State)
    requires st.w == NW && st.rest == Print(s, printable, alt) + after
    ensures Reads(st, Tokens(s, printable, alt), State(after, WordAfter(s, alt), true, st.skipdual)) <==>
      Fits(s, printable, alt, st.skipequals, after)
    ensures Words(Tokens(s, printable, alt)) == Some([s])
  {
    hide Lex, Classify, Emit, Reads, Fits;
    ReadPrinted(s, printable, alt, after, st);
    WordsOfTokens(s, printable, alt, []);
    assert Tokens(s, printable, alt) + [] == Tokens(s, printable, alt);
    assert [s] + [] == [s];
  }

  /** An octal escape does run on into a digit that follows it. */
  lemma OctalRunsOn()
    ensures var printable := c => false; var st := State(Emit([1], printable, Begin) + ['2' as int], NW, false, false);
      Lex(st).0 == QWord([10])
  {
    var printable: Byte -> bool := c => false;
    var st := State(Emit([1], printable, Begin) + ['2' as int], NW, false, false);
    assert [1][1..] == [];
    assert st.rest == [BACKSLASH, '1' as int, '2' as int];
    LexEscape(st, ['1' as int, '2' as int]);
    OctalStep(0, '1' as int, ['2' as int]);
    OctalStep(1, '2' as int, []);
    assert ['2' as int] + [] == ['2' as int];
  }

  // ----- lists -----

  const SPACE: Byte := ' ' as int

  function PrintList(list: seq<CString>, printable: Byte -> bool, sep: CString): CString {
    if list == [] then []
    else Print(list[0], printable, false) + if |list| == 1 then [] else sep + PrintList(list[1..], printable, sep)
  }

  /** %#L */
  method Lconv(list: seq<CString>, printable: Byte -> bool, sep: CString) returns (out: CString)
    ensures out == PrintList(list, printable, sep)
  {
    hide Print, PrintList;
    out := [];
    var lp := 0;
    assert list[0..] == list && [] + PrintList(list, printable, sep) == PrintList(list, printable, sep);
    while lp < |list|
      invariant lp <= |list|
      invariant out + PrintList(list[lp..], printable, sep) == PrintList(list, printable, sep)
    {
      assert list[lp..][1..] == list[lp + 1..];
      ListStep(out, list[lp..], printable, sep);
      var text := Sconv(list[lp], printable, false);
      out := out + text + if lp + 1 == |list| then [] else sep;
      lp := lp + 1;
    }
    ListEnd(out, printable, sep);
    assert list[lp..] == [];
  }

  lemma ListStep(out: CString, list: seq<CString>, printable: Byte -> bool, sep: CString)
    requires list != []
    ensures out + PrintList(list, printable, sep) ==
      (out + Print(list[0], printable, false) + (if |list| == 1 then [] else sep)) + PrintList(list[1..], printable, sep)
  {
    hide Print;
    if |list| == 1 {
      assert list[1..] == [];
    }
  }

  lemma ListEnd(out: CString, printable: Byte -> bool, sep: CString)
    ensures out + PrintList([], printable, sep) == out
  {}

  function ListTokens(list: seq<CString>, printable: Byte -> bool): seq<Token> {
    if list == [] then [] else Tokens(list[0], printable, false) + ListTokens(list[1..], printable)
  }

  lemma {:induction false} ReadsOn(st: State, first: seq<Token>, mid: State, second: seq<Token>, end: State)
    requires Reads(st, first, mid) && Reads(mid, second, end)
    ensures Reads(st, first + second, end)
    decreases |first|
  {
    hide Lex;
    if first == [] {
      assert first + second == second;
    } else {
      ReadsOn(Lex(st).1, first[1..], mid, second, end);
      assert (first + second)[1..] == first[1..] + second;
    }
  }

  /** A blank ends a word; the tokens after it are the same. */
  lemma ReadsPastBlank(st: State, rest: CString, tokens: seq<Token>, end: State)
    requires st.rest == [SPACE] + rest && tokens != [] && Reads(st.(rest := rest, w := NW), tokens, end)
    ensures Reads(st, tokens, end)
  {
    hide LexHere;
    assert st.rest[1..] == rest && BlanksAt(st.rest) == 1;
  }

  /** A printed list is read back as that list of words. */
  lemma {:induction false} ReadBackList(list: seq<CString>, printable: Byte -> bool, after: CString, st: State)
    requires st.w == NW && list != [] && st.rest == PrintList(list, printable, [SPACE]) + after
    requires Fits(list[|list| - 1], printable, false, |list| > 1 || st.skipequals, after)
    ensures Reads(st, ListTokens(list, printable), State(after, WordAfter(list[|list| - 1], false), true, st.skipdual))
    ensures ListTokens(list, printable) != [] && ListTokens(list, printable)[0] != Caret
    ensures Words(ListTokens(list, printable)) == Some(list)
    decreases |list|
  {
    hide Lex, Reads, Print, Classify, Tokens, Words, Fits;
    var s, rest := list[0], list[1..];
    var first := Tokens(s, printable, false);
    if rest == [] {
      assert first + ListTokens(rest, printable) == first;
      ReadPrinted(s, printable, false, after, st);
      WordsOfTokens(s, printable, false, []);
      assert first + [] == first && list == [s] + [];
      NoWords();
    } else {
      var more := PrintList(rest, printable, [SPACE]) + after;
      var mid := State([SPACE] + more, WordAfter(s, false), true, st.skipdual);
      assert st.rest == Print(s, printable, false) + ([SPACE] + more);
      BlankFits(s, printable, st.skipequals, more);
      ReadPrinted(s, printable, false, [SPACE] + more, st);
      ReadBackList(rest, printable, after, mid.(rest := more, w := NW));
      var end := State(after, WordAfter(list[|list| - 1], false), true, st.skipdual);
      ReadsPastBlank(mid, more, ListTokens(rest, printable), end);
      ReadsOn(st, first, mid, ListTokens(rest, printable), end);
      WordsOfTokens(s, printable, false, ListTokens(rest, printable));
      assert list == [s] + rest;
    }
  }

  lemma BlankFits(s: CString, printable: Byte -> bool, skipequals: bool, more: CString)
    ensures Fits(s, printable, false, skipequals, [SPACE] + more)
  {}

  lemma NoWords()
    ensures Words([]) == Some([])
  {}
}
