/** match.c: matching a word against a quoted pattern, and extracting the parts of the word
    that the wildcards of the pattern stand for. */
module Glob {
  import opened CStrings

  /** Characters are the non-zero values of the C type char, whatever its signedness. */
  type Char = c: int | c != 0 witness 1

  type Text = seq<Char>

  /** QUOTED and UNQUOTED are the two shared quotings; otherwise one flag per character. */
  datatype Quoting = Quoted | Unquoted | Mask(quoted: seq<bool>)

  predicate QuotingFor(q: Quoting, p: Text) {
    q.Mask? ==> |q.quoted| == |p|
  }

  predicate IsQuoted(q: Quoting, p: Text, n: nat) {
    n < |p| && (q.Quoted? || (q.Mask? && n < |q.quoted| && q.quoted[n]))
  }

  /** The character at n is c and is not quoted. */
  predicate Raw(p: Text, q: Quoting, n: nat, c: char)
    requires n <= |p|
  {
    At(p, n) == c as int && !IsQuoted(q, p, n)
  }

  // ----- the language of a pattern -----

  datatype Range = Range(lo: int, hi: int)

  datatype Class = Class(negated: bool, ranges: seq<Range>)

  datatype Item = Literal(c: Char) | AnyOne | Star | OneOf(charClass: Class)

  datatype Pattern = End | Then(item: Item, rest: Pattern)

  predicate InRanges(ranges: seq<Range>, c: int) {
    exists i :: 0 <= i < |ranges| && ranges[i].lo <= c <= ranges[i].hi
  }

  predicate Member(k: Class, c: int) {
    InRanges(k.ranges, c) != k.negated
  }

  /** A parsed class and the position after its closing bracket. */
  datatype ClassParse = Unterminated | Closed(charClass: Class, end: nat)

  /** The members of a class from position j on, up to the first unquoted ']'. */
  function ClassRanges(p: Text, q: Quoting, j: nat): (r: ClassParse)
    requires j <= |p|
    ensures r.Closed? ==> j < r.end <= |p| && !r.charClass.negated
    decreases |p| - j
  {
    if j == |p| then Unterminated
    else if Raw(p, q, j, ']') then Closed(Class(false, []), j + 1)
    else
      if IsRange(p, q, j) then Prepend(false, [Range(p[j], p[j + 2])], ClassRanges(p, q, j + 3))
      else Prepend(false, [Range(p[j], p[j])], ClassRanges(p, q, j + 1))
  }

  /** "x-y" is a range unless the y is an unquoted ']' or missing. */
  predicate IsRange(p: Text, q: Quoting, j: nat)
    requires j < |p|
  {
    && Raw(p, q, j + 1, '-')
    && ((At(p, j + 2) != ']' as int && At(p, j + 2) != 0) || IsQuoted(q, p, j + 2))
  }

  function Prepend(negated: bool, ranges: seq<Range>, parse: ClassParse): (r: ClassParse)
    ensures r.Closed? == parse.Closed? && (r.Closed? ==> r.end == parse.end)
  {
    match parse
    case Unterminated => Unterminated
    case Closed(k, end) => Closed(Class(negated, ranges + k.ranges), end)
  }

  /** The class whose '[' stands just before position i. */
  function ParseClass(p: Text, q: Quoting, i: nat): (r: ClassParse)
    requires i <= |p|
    ensures r.Closed? ==> i < r.end <= |p|
  {
    var negated := Raw(p, q, i, '~');
    var j := if negated then i + 1 else i;
    var bracket := Raw(p, q, j, ']');
    if bracket then Prepend(negated, [Range(p[j], p[j])], ClassRanges(p, q, j + 1))
    else Prepend(negated, [], ClassRanges(p, q, j))
  }

  /** The items of the pattern from position i on.  A '[' without its ']' is a literal. */
  function Parse(p: Text, q: Quoting, i: nat): Pattern
    requires i <= |p|
    decreases |p| - i
  {
    if i == |p| then End
    else if IsQuoted(q, p, i) then Then(Literal(p[i]), Parse(p, q, i + 1))
    else if p[i] == '?' as int then Then(AnyOne, Parse(p, q, i + 1))
    else if p[i] == '*' as int then Then(Star, Parse(p, q, i + 1))
    else if p[i] == '[' as int then
      match ParseClass(p, q, i + 1)
      case Unterminated => Then(Literal(p[i]), Parse(p, q, i + 1))
      case Closed(k, end) => Then(OneOf(k), Parse(p, q, end))
    else Then(Literal(p[i]), Parse(p, q, i + 1))
  }

  /** Does one character belong to a one-character item? */
  predicate Accepts(item: Item, c: int)
    requires !item.Star?
  {
    match item
    case Literal(d) => c == d
    case AnyOne => true
    case OneOf(k) => Member(k, c)
  }

  /** s[k..e] is in the language of g: a star stands for nothing, or for one character more. */
  predicate Spans(g: Pattern, s: Text, k: nat, e: nat)
    requires k <= e <= |s|
    decreases g, e - k
  {
    if g.End? then k == e
    else if g.item.Star? then Spans(g.rest, s, k, e) || (k < e && Spans(g, s, k + 1, e))
    else k < e && Accepts(g.item, s[k]) && Spans(g.rest, s, k + 1, e)
  }

  // ----- what the text of a pattern means -----

  /** A member of a class as it is written: one character, or a range. */
  datatype Part = One(c: Char) | Span(lo: Char, hi: Char)

  predicate InPart(part: Part, c: int) {
    match part
    case One(d) => c == d
    case Span(lo, hi) => lo <= c && c <= hi
  }

  /** p[j..b] is written as these parts.  A ']' stands only at the start; a '-' between two
      characters makes a range of them, unless the first one is that ']'. */
  predicate Written(p: Text, q: Quoting, j: nat, parts: seq<Part>, b: nat, start: bool)
    requires j <= b <= |p|
    decreases parts
  {
    if parts == [] then j == b
    else if start && Raw(p, q, j, ']') then j < b && parts[0] == One(p[j]) && Written(p, q, j + 1, parts[1..], b, false)
    else
      && j < b && !Raw(p, q, j, ']')
      && match parts[0]
         case One(c) => c == p[j] && (j + 2 >= b || !Raw(p, q, j + 1, '-')) && Written(p, q, j + 1, parts[1..], b, false)
         case Span(lo, hi) =>
           && j + 3 <= b && lo == p[j] && Raw(p, q, j + 1, '-') && hi == p[j + 2] && !Raw(p, q, j + 2, ']')
           && Written(p, q, j + 3, parts[1..], b, false)
  }

  /** Where the members of the class start whose '[' stands at i. */
  function MembersStart(p: Text, q: Quoting, i: nat): (j: nat)
    requires i < |p|
    ensures i < j <= |p|
  {
    if Raw(p, q, i + 1, '~') then i + 2 else i + 1
  }

  /** The class whose '[' stands at i ends with the ']' at b. */
  predicate Ends(p: Text, q: Quoting, i: nat, b: nat)
    requires i < |p|
  {
    && MembersStart(p, q, i) < b < |p| && Raw(p, q, b, ']')
    && forall m :: MembersStart(p, q, i) < m < b ==> !Raw(p, q, m, ']')
  }

  lemma InRangesPrepend(x: Range, ranges: seq<Range>, c: int)
    ensures InRanges([x] + ranges, c) <==> x.lo <= c <= x.hi || InRanges(ranges, c)
  {
    var all := [x] + ranges;
    assert all[0] == x;
    if InRanges(ranges, c) {
      var i :| 0 <= i < |ranges| && ranges[i].lo <= c <= ranges[i].hi;
      assert all[i + 1] == ranges[i];
    }
  }

  lemma SomePart(parts: seq<Part>, c: int)
    requires parts != []
    ensures (exists x :: x in parts && InPart(x, c)) <==> InPart(parts[0], c) || exists x :: x in parts[1..] && InPart(x, c)
  {
    assert parts == [parts[0]] + parts[1..];
  }

  lemma {:induction false} RangesWritten(p: Text, q: Quoting, j: nat, parts: seq<Part>, b: nat, c: int)
    requires j <= b < |p| && Written(p, q, j, parts, b, false) && Raw(p, q, b, ']')
    ensures var r := ClassRanges(p, q, j);
      r.Closed? && r.end == b + 1 && (InRanges(r.charClass.ranges, c) <==> exists x :: x in parts && InPart(x, c))
    decreases parts
  {
    hide InRanges;
    if parts == [] {
      NoRanges(c);
    } else {
      var x, j' := FirstRange(p, q, j), if IsRange(p, q, j) then j + 3 else j + 1;
      RangesWritten(p, q, j', parts[1..], b, c);
      SomePart(parts, c);
      InRangesPrepend(x, ClassRanges(p, q, j').charClass.ranges, c);
    }
  }

  /** A class stands for one character, which is or is not one of those written. */
  lemma ClassWritten(p: Text, q: Quoting, i: nat, parts: seq<Part>, b: nat, s: Text, k: nat, e: nat)
    requires i < |p| && Raw(p, q, i, '[') && Ends(p, q, i, b) && k <= e <= |s|
    requires Written(p, q, MembersStart(p, q, i), parts, b, true)
    ensures Spans(Parse(p, q, i), s, k, e) <==>
      k < e && Spans(Parse(p, q, b + 1), s, k + 1, e) &&
      ((exists x :: x in parts && InPart(x, s[k])) != Raw(p, q, i + 1, '~'))
  {
    hide InRanges;
    if k < e {
      var j, c := MembersStart(p, q, i), s[k];
      SomePart(parts, c);
      if Raw(p, q, j, ']') {
        RangesWritten(p, q, j + 1, parts[1..], b, c);
        InRangesPrepend(Range(p[j], p[j]), ClassRanges(p, q, j + 1).charClass.ranges, c);
      } else {
        RangesWritten(p, q, j, parts, b, c);
        assert [] + ClassRanges(p, q, j).charClass.ranges == ClassRanges(p, q, j).charClass.ranges;
      }
    }
  }

  /** Every class is written as some parts. */
  lemma {:induction false} PartsOf(p: Text, q: Quoting, j: nat, b: nat, start: bool) returns (parts: seq<Part>)
    requires j <= b < |p| && Raw(p, q, b, ']') && (start ==> j < b)
    requires forall m :: j <= m < b && Raw(p, q, m, ']') ==> start && m == j
    ensures Written(p, q, j, parts, b, start)
    decreases b - j
  {
    parts := [];
    if j < b {
      if !(start && Raw(p, q, j, ']')) && j + 2 < b && Raw(p, q, j + 1, '-') {
        var rest := PartsOf(p, q, j + 3, b, false);
        parts := [Span(p[j], p[j + 2])] + rest;
      } else {
        var rest := PartsOf(p, q, j + 1, b, false);
        parts := [One(p[j])] + rest;
      }
    }
  }

  /** [xs] is any character of xs, and [~xs] is any other: xs has no ']' but at its start, and
      no '-' but at its ends. */
  lemma ListedClass(p: Text, q: Quoting, i: nat, b: nat, s: Text, k: nat, e: nat)
    requires i < |p| && Raw(p, q, i, '[') && Ends(p, q, i, b) && k <= e <= |s|
    requires forall m :: MembersStart(p, q, i) < m < b - 1 ==> !Raw(p, q, m, '-')
    ensures Spans(Parse(p, q, i), s, k, e) <==>
      k < e && Spans(Parse(p, q, b + 1), s, k + 1, e) && ((s[k] in p[MembersStart(p, q, i)..b]) != Raw(p, q, i + 1, '~'))
  {
    hide Parse, Spans;
    var j := MembersStart(p, q, i);
    var parts := seq(b - j, m requires 0 <= m < b - j => One(p[j + m]));
    ListWritten(p, q, j, b, true);
    ClassWritten(p, q, i, parts, b, s, k, e);
    if k < e {
      if s[k] in p[j..b] {
        var m :| 0 <= m < b - j && p[j..b][m] == s[k];
        assert parts[m] in parts && InPart(parts[m], s[k]);
      }
    }
  }

  lemma {:induction false} ListWritten(p: Text, q: Quoting, j: nat, b: nat, start: bool)
    requires j <= b < |p| && Raw(p, q, b, ']') && (start ==> j < b)
    requires forall m :: j <= m < b && Raw(p, q, m, ']') ==> start && m == j
    requires forall m :: j < m < b - 1 ==> !Raw(p, q, m, '-')
    ensures Written(p, q, j, seq(b - j, m requires 0 <= m < b - j => One(p[j + m])), b, start)
    decreases b - j
  {
    if j < b {
      ListWritten(p, q, j + 1, b, false);
      var parts := seq(b - j, m requires 0 <= m < b - j => One(p[j + m]));
      assert parts[1..] == seq(b - (j + 1), m requires 0 <= m < b - (j + 1) => One(p[j + 1 + m]));
    }
  }

  /** [x-y] is any character from x to y, and [~x-y] is any other. */
  lemma RangeClass(p: Text, q: Quoting, i: nat, s: Text, k: nat, e: nat)
    requires i < |p| && Raw(p, q, i, '[') && k <= e <= |s|
    requires var j := MembersStart(p, q, i);
      && j + 3 < |p| && !Raw(p, q, j, ']') && Raw(p, q, j + 1, '-') && !Raw(p, q, j + 2, ']') && Raw(p, q, j + 3, ']')
    ensures var j := MembersStart(p, q, i);
      Spans(Parse(p, q, i), s, k, e) <==>
        k < e && Spans(Parse(p, q, j + 4), s, k + 1, e) && ((p[j] <= s[k] && s[k] <= p[j + 2]) != Raw(p, q, i + 1, '~'))
  {
    hide Parse, Spans;
    var j := MembersStart(p, q, i);
    var parts := [Span(p[j], p[j + 2])];
    assert parts[1..] == [];
    ClassWritten(p, q, i, parts, j + 3, s, k, e);
    if k < e {
      SomePart(parts, s[k]);
    }
  }

  lemma {:induction false} NeverCloses(p: Text, q: Quoting, j: nat)
    requires j <= |p| && forall m :: j <= m < |p| ==> !Raw(p, q, m, ']')
    ensures ClassRanges(p, q, j).Unterminated?
    decreases |p| - j
  {
    if j < |p| {
      NeverCloses(p, q, if IsRange(p, q, j) then j + 3 else j + 1);
    }
  }

  /** The whole pattern [xs], or [~xs], without special characters in xs. */
  lemma ClassMatches(xs: Text, c: Char, negated: bool)
    requires xs != [] && ']' as int !in xs && '-' as int !in xs && (negated || xs[0] != '~' as int)
    ensures var p: Text := ['[' as int] + (if negated then ['~' as int] else []) + xs + [']' as int];
      Spans(Parse(p, Unquoted, 0), [c], 0, 1) <==> (c in xs) != negated
  {
    hide Parse, Spans;
    var start: Text := ['[' as int] + if negated then ['~' as int] else [];
    var p := start + xs + [']' as int];
    var b := |p| - 1;
    assert p[|start|] == xs[0];
    assert p[|start|..b] == xs;
    ListedClass(p, Unquoted, 0, b, [c], 0, 1);
    EndOfPattern(p, Unquoted, [c], 1, 1);
  }

  /** A '[' without its ']' is that character. */
  lemma OpenBracket(p: Text, q: Quoting, i: nat, s: Text, k: nat, e: nat)
    requires i < |p| && Raw(p, q, i, '[') && k <= e <= |s| && forall b :: !Ends(p, q, i, b)
    ensures Spans(Parse(p, q, i), s, k, e) <==> k < e && s[k] == '[' as int && Spans(Parse(p, q, i + 1), s, k + 1, e)
  {
    var j := MembersStart(p, q, i);
    NoEnd(p, q, i, |p|);
    if j < |p| {
      NeverCloses(p, q, if Raw(p, q, j, ']') then j + 1 else j);
    }
  }

  lemma {:induction false} NoEnd(p: Text, q: Quoting, i: nat, n: nat)
    requires i < |p| && (forall b :: !Ends(p, q, i, b)) && n <= |p|
    ensures forall m :: MembersStart(p, q, i) < m < n ==> !Raw(p, q, m, ']')
  {
    if n > 0 {
      NoEnd(p, q, i, n - 1);
      assert !Ends(p, q, i, n - 1);
    }
  }

  /** '?' is any one character. */
  lemma QuestionMark(p: Text, q: Quoting, i: nat, s: Text, k: nat, e: nat)
    requires i < |p| && Raw(p, q, i, '?') && k <= e <= |s|
    ensures Spans(Parse(p, q, i), s, k, e) <==> k < e && Spans(Parse(p, q, i + 1), s, k + 1, e)
  {}

  predicate SomeSuffix(g: Pattern, s: Text, k: nat, e: nat)
    requires k <= e <= |s|
  {
    exists j :: k <= j <= e && Spans(g, s, j, e)
  }

  /** '*' is any text, even none. */
  lemma Asterisk(p: Text, q: Quoting, i: nat, s: Text, k: nat, e: nat)
    requires i < |p| && Raw(p, q, i, '*') && k <= e <= |s|
    ensures Spans(Parse(p, q, i), s, k, e) <==> SomeSuffix(Parse(p, q, i + 1), s, k, e)
  {
    var g := Parse(p, q, i + 1);
    if Spans(Parse(p, q, i), s, k, e) {
      var j := StarSplit(g, s, k, e);
    }
    if SomeSuffix(g, s, k, e) {
      var j :| k <= j <= e && Spans(g, s, j, e);
      StarFrom(g, s, k, j, e);
    }
  }

  /** Any other character, and every quoted one, is itself. */
  lemma Ordinary(p: Text, q: Quoting, i: nat, s: Text, k: nat, e: nat)
    requires i < |p| && k <= e <= |s| && !Raw(p, q, i, '?') && !Raw(p, q, i, '*') && !Raw(p, q, i, '[')
    ensures Spans(Parse(p, q, i), s, k, e) <==> k < e && s[k] == p[i] && Spans(Parse(p, q, i + 1), s, k + 1, e)
  {}

  /** The end of the pattern is the empty text. */
  lemma EndOfPattern(p: Text, q: Quoting, s: Text, k: nat, e: nat)
    requires k <= e <= |s|
    ensures Spans(Parse(p, q, |p|), s, k, e) <==> k == e
  {}

  // ----- rangematch -----

  datatype RangeMatch = RangeFail | RangeError | Skip(n: nat)

  /** The leading '~' and the leading ']' of a class. */
  method ClassStart(p: Text, q: Quoting, i: nat, c: Char)
    returns (j: nat, negated: bool, matched: bool, ghost ranges: seq<Range>)
    requires i <= |p|
    ensures i <= j <= |p| && matched == InRanges(ranges, c)
    ensures Prepend(negated, ranges, ClassRanges(p, q, j)) == ParseClass(p, q, i)
  {
    hide InRanges, Prepend;
    NoRanges(c);
    j, negated, matched, ranges := i, false, false, [];
    if At(p, j) == '~' as int && !IsQuoted(q, p, j) {
      j, negated := j + 1, true;
    }
    if At(p, j) == ']' as int && !IsQuoted(q, p, j) {
      matched := c == ']' as int;
      ranges := [Range(p[j], p[j])];
      InRangesSnoc([], ranges[0], c);
      assert [] + [ranges[0]] == ranges;
      j := j + 1;
    }
  }

  /** rangematch: the class starts at position i, just after its '['.  How far a class
      reaches, or that it is unterminated, does not depend on the character. */
  method RangeMatching(p: Text, q: Quoting, i: nat, c: Char) returns (r: RangeMatch)
    requires i <= |p|
    ensures r == match ParseClass(p, q, i)
                 case Unterminated => RangeError
                 case Closed(k, end) => if Member(k, c) then Skip(end - i) else RangeFail
  {
    hide InRanges, Prepend, ParseClass;
    var j, negated, matched;
    ghost var ranges;
    j, negated, matched, ranges := ClassStart(p, q, i, c);
    while At(p, j) != ']' as int || IsQuoted(q, p, j)
      invariant i <= j <= |p|
      invariant matched == InRanges(ranges, c)
      invariant Prepend(negated, ranges, ClassRanges(p, q, j)) == ParseClass(p, q, i)
      decreases |p| - j
    {
      if At(p, j) == 0 {
        PrependUnterminated(negated, ranges);
        return RangeError;
      }
      ghost var x := FirstRange(p, q, j);
      ClassStep(p, q, j, negated, ranges, c);
      if At(p, j + 1) == '-' as int && !IsQuoted(q, p, j + 1)
         && ((At(p, j + 2) != ']' as int && At(p, j + 2) != 0) || IsQuoted(q, p, j + 2)) {
        if c >= p[j] && c <= p[j + 2] {
          matched := true;
        }
        j := j + 2;
      } else if p[j] == c {
        matched := true;
      }
      j := j + 1;
      ranges := ranges + [x];
    }
    PrependNothing(negated, ranges, ClassRanges(p, q, j));
    r := if matched != negated then Skip(j - i + 1) else RangeFail;
  }

  lemma PrependUnterminated(negated: bool, ranges: seq<Range>)
    ensures Prepend(negated, ranges, Unterminated) == Unterminated
  {}

  lemma NoRanges(c: int)
    ensures !InRanges([], c)
  {}

  lemma InRangesSnoc(ranges: seq<Range>, x: Range, c: int)
    ensures InRanges(ranges + [x], c) <==> InRanges(ranges, c) || x.lo <= c <= x.hi
  {
    assert (ranges + [x])[|ranges|] == x;
    if InRanges(ranges, c) {
      var i :| 0 <= i < |ranges| && ranges[i].lo <= c <= ranges[i].hi;
      assert (ranges + [x])[i] == ranges[i];
    }
  }

  function FirstRange(p: Text, q: Quoting, j: nat): Range
    requires j < |p|
  {
    Range(p[j], if IsRange(p, q, j) then p[j + 2] else p[j])
  }

  lemma ClassStep(p: Text, q: Quoting, j: nat, negated: bool, ranges: seq<Range>, c: int)
    requires j < |p| && !Raw(p, q, j, ']')
    ensures var x, j' := FirstRange(p, q, j), if IsRange(p, q, j) then j + 3 else j + 1;
      && Prepend(negated, ranges, ClassRanges(p, q, j)) == Prepend(negated, ranges + [x], ClassRanges(p, q, j'))
      && (InRanges(ranges + [x], c) <==> InRanges(ranges, c) || x.lo <= c <= x.hi)
  {
    var x, j' := FirstRange(p, q, j), if IsRange(p, q, j) then j + 3 else j + 1;
    InRangesSnoc(ranges, x, c);
    var rest := ClassRanges(p, q, j');
    if rest.Closed? {
      assert ranges + ([x] + rest.charClass.ranges) == ranges + [x] + rest.charClass.ranges;
    }
  }

  lemma PrependNothing(negated: bool, ranges: seq<Range>, rest: ClassParse)
    requires rest.Closed? && rest.charClass == Class(false, [])
    ensures Prepend(negated, ranges, rest) == Closed(Class(negated, ranges), rest.end)
  {
    assert ranges + [] == ranges;
  }

  // ----- match -----

  /** A one-character item cannot span nothing, so only stars match an empty text. */
  predicate AllStars(g: Pattern) {
    g.End? || (g.item.Star? && AllStars(g.rest))
  }

  lemma {:induction false} EmptySpan(g: Pattern, s: Text, k: nat)
    requires k <= |s|
    ensures Spans(g, s, k, k) <==> AllStars(g)
  {
    if g.Then? && g.item.Star? {
      EmptySpan(g.rest, s, k);
    }
  }

  /** A star followed by g spans what g spans after some split point. */
  lemma {:induction false} StarFrom(g: Pattern, s: Text, k: nat, j: nat, e: nat)
    requires k <= j <= e <= |s| && Spans(g, s, j, e)
    ensures Spans(Then(Star, g), s, k, e)
    decreases j - k
  {
    if k < j {
      StarFrom(g, s, k + 1, j, e);
    }
  }

  lemma {:induction false} StarSplit(g: Pattern, s: Text, k: nat, e: nat) returns (j: nat)
    requires k <= e <= |s| && Spans(Then(Star, g), s, k, e)
    ensures k <= j <= e && Spans(g, s, j, e)
    decreases e - k
  {
    if Spans(g, s, k, e) {
      j := k;
    } else {
      j := StarSplit(g, s, k + 1, e);
    }
  }

  /** Two stars in a row mean what one means. */
  lemma {:induction false} DoubleStar(g: Pattern, s: Text, k: nat, e: nat)
    requires k <= e <= |s|
    ensures Spans(Then(Star, Then(Star, g)), s, k, e) <==> Spans(Then(Star, g), s, k, e)
    decreases e - k
  {
    if k < e {
      DoubleStar(g, s, k + 1, e);
    }
  }

  /** A wholly quoted pattern matches only itself. */
  lemma {:induction false} QuotedMatches(p: Text, i: nat, s: Text, k: nat)
    requires i <= |p| && k <= |s|
    ensures Spans(Parse(p, Quoted, i), s, k, |s|) <==> s[k..] == p[i..]
    decreases |p| - i
  {
    if i < |p| {
      assert p[i..] == [p[i]] + p[i + 1..];
      if k < |s| {
        assert s[k..] == [s[k]] + s[k + 1..];
        QuotedMatches(p, i + 1, s, k + 1);
        if s[k..] == p[i..] {
          assert s[k..][0] == p[i..][0] && s[k..][1..] == p[i..][1..];
        }
      }
    }
  }

  /** match, on the suffix of the subject at k0 and of the pattern at i0. */
  method Match(s: Text, k0: nat, p: Text, i0: nat, q: Quoting) returns (r: bool)
    requires k0 <= |s| && i0 <= |p| && QuotingFor(q, p)
    ensures r <==> Spans(Parse(p, q, i0), s, k0, |s|)
    decreases |p| - i0, 0
  {
    hide ClassRanges, ParseClass, InRanges;
    if q.Quoted? {
      QuotedMatches(p, i0, s, k0);
      return s[k0..] == p[i0..];
    }
    var i: nat, k: nat := i0, k0;
    while true
      invariant i0 <= i <= |p| && k <= |s|
      invariant Spans(Parse(p, q, i0), s, k0, |s|) <==> Spans(Parse(p, q, i), s, k, |s|)
      decreases |p| - i
    {
      var c := At(p, i);
      i := i + 1;
      if c == 0 {
        return At(s, k) == 0;
      } else if !IsQuoted(q, p, i - 1) && c == '?' as int {
        if At(s, k) == 0 {
          return false;
        }
        k := k + 1;
      } else if !IsQuoted(q, p, i - 1) && c == '*' as int {
        r := MatchStar(s, k, p, i, q);
        return;
      } else if !IsQuoted(q, p, i - 1) && c == '[' as int {
        if At(s, k) == 0 {
          return false;
        }
        var j := RangeMatching(p, q, i, s[k]);
        match j {
          case Skip(n) => i := i + n;
          case RangeFail => return false;
          case RangeError =>
            if s[k] != '[' as int {
              return false;
            }
        }
        k := k + 1;
      } else {
        if c != At(s, k) {
          return false;
        }
        k := k + 1;
      }
    }
  }

  /** The star case of match: the star stands just before position i0.  Trying only
      non-empty suffixes of the subject loses nothing once the stars are collapsed. */
  method MatchStar(s: Text, k0: nat, p: Text, i0: nat, q: Quoting) returns (r: bool)
    requires k0 <= |s| && i0 <= |p| && QuotingFor(q, p) && !q.Quoted?
    ensures r <==> Spans(Then(Star, Parse(p, q, i0)), s, k0, |s|)
    decreases |p| - i0, 1
  {
    var i: nat, k: nat := i0, k0;
    while At(p, i) == '*' as int && !IsQuoted(q, p, i)
      invariant i0 <= i <= |p|
      invariant Spans(Then(Star, Parse(p, q, i0)), s, k0, |s|) <==> Spans(Then(Star, Parse(p, q, i)), s, k0, |s|)
      decreases |p| - i
    {
      DoubleStar(Parse(p, q, i + 1), s, k0, |s|);
      i := i + 1;
    }
    ghost var g := Parse(p, q, i);
    if At(p, i) == 0 {
      StarFrom(End, s, k0, |s|, |s|);
      return true;
    }
    while k < |s|
      invariant k0 <= k <= |s|
      invariant forall j :: k0 <= j < k ==> !Spans(g, s, j, |s|)
    {
      r := Match(s, k, p, i, q);
      if r {
        StarFrom(g, s, k0, k, |s|);
        return;
      }
      k := k + 1;
    }
    EmptySpan(g, s, |s|);
    if Spans(Then(Star, g), s, k0, |s|) {
      var j := StarSplit(g, s, k0, |s|);
      assert false;
    }
    r := false;
  }

  // ----- substituting pieces for wildcards -----

  predicate IsWild(item: Item) {
    !item.Literal?
  }

  /** Put the pieces, in order, in place of the wildcards of g.  A star takes any piece,
      '?' any one character and a class one of its members. */
  function Fill(g: Pattern, pieces: seq<Text>): Option<Text> {
    if g.End? then (if pieces == [] then Some([]) else None)
    else if g.item.Literal? then Before([g.item.c], Fill(g.rest, pieces))
    else if pieces == [] || !(g.item.Star? || (|pieces[0]| == 1 && Accepts(g.item, pieces[0][0]))) then None
    else Before(pieces[0], Fill(g.rest, pieces[1..]))
  }

  function Before(a: Text, b: Option<Text>): Option<Text> {
    if b.None? then None else Some(a + b.value)
  }

  /** Whatever filling in pieces yields is in the language of the pattern. */
  lemma {:induction false} FilledSpans(g: Pattern, pieces: seq<Text>, s: Text, k: nat)
    requires k <= |s| && Fill(g, pieces) == Some(s[k..])
    ensures Spans(g, s, k, |s|)
    decreases g
  {
    if g.Then? {
      if g.item.Literal? {
        var b := Fill(g.rest, pieces).value;
        assert s[k..] == [g.item.c] + b;
        assert s[k] == s[k..][0] && s[k + 1..] == s[k..][1..] == b;
        FilledSpans(g.rest, pieces, s, k + 1);
      } else {
        var a, b := pieces[0], Fill(g.rest, pieces[1..]).value;
        assert s[k..] == a + b;
        assert s[k + |a|..] == s[k..][|a|..] == b;
        FilledSpans(g.rest, pieces[1..], s, k + |a|);
        if g.item.Star? {
          StarFrom(g.rest, s, k, k + |a|, |s|);
        } else {
          assert s[k] == s[k..][0];
        }
      }
    }
  }

  /** Where the shortest star piece ends: the first position the rest matches from. */
  function Shortest(g: Pattern, s: Text, k: nat): (j: nat)
    requires k <= |s| && Spans(Then(Star, g), s, k, |s|)
    ensures k <= j <= |s| && Spans(g, s, j, |s|)
    ensures forall i :: k <= i < j ==> !Spans(g, s, i, |s|)
    decreases |s| - k
  {
    if Spans(g, s, k, |s|) then k else Shortest(g, s, k + 1)
  }

  /** The pieces extraction returns, in pattern order. */
  function Pieces(g: Pattern, s: Text, k: nat): seq<Text>
    requires k <= |s| && Spans(g, s, k, |s|)
    decreases g
  {
    if g.End? then []
    else if g.item.Star? then
      var j := Shortest(g.rest, s, k);
      [s[k..j]] + Pieces(g.rest, s, j)
    else (if IsWild(g.item) then [s[k..k + 1]] else []) + Pieces(g.rest, s, k + 1)
  }

  /** Substituting the extracted pieces for the wildcards rebuilds the subject. */
  lemma {:induction false} PiecesRebuild(g: Pattern, s: Text, k: nat)
    requires k <= |s| && Spans(g, s, k, |s|)
    ensures Fill(g, Pieces(g, s, k)) == Some(s[k..])
    decreases g
  {
    if g.End? {
      assert s[k..] == [];
    } else {
      var j := if g.item.Star? then Shortest(g.rest, s, k) else k + 1;
      PiecesRebuild(g.rest, s, j);
      assert s[k..] == s[k..j] + s[j..];
      var ps := Pieces(g.rest, s, j);
      if g.item.Literal? {
        assert s[k..j] == [g.item.c];
        assert Pieces(g, s, k) == ps;
      } else {
        assert Pieces(g, s, k) == [s[k..j]] + ps;
        assert ([s[k..j]] + ps)[1..] == ps;
        assert Fill(g, [s[k..j]] + ps) == Before(s[k..j], Fill(g.rest, ps));
      }
    }
  }

  /** The first pieces that differ in length differ in favour of a. */
  predicate ShorterFirst(a: seq<Text>, b: seq<Text>) {
    a == [] || b == [] || |a[0]| < |b[0]| || (|a[0]| == |b[0]| && ShorterFirst(a[1..], b[1..]))
  }

  /** Of all ways to fill the pattern, extraction takes the one with the shortest star
      pieces, earlier stars first. */
  lemma {:induction false} PiecesShortest(g: Pattern, s: Text, k: nat, other: seq<Text>)
    requires k <= |s| && Spans(g, s, k, |s|) && Fill(g, other) == Some(s[k..])
    ensures |Pieces(g, s, k)| == |other| && ShorterFirst(Pieces(g, s, k), other)
    decreases g
  {
    if g.Then? {
      if g.item.Literal? {
        assert s[k + 1..] == s[k..][1..];
        PiecesShortest(g.rest, s, k + 1, other);
        assert Pieces(g, s, k) == Pieces(g.rest, s, k + 1);
      } else {
        var a := other[0];
        assert s[k..] == a + Fill(g.rest, other[1..]).value;
        assert s[k + |a|..] == s[k..][|a|..] == Fill(g.rest, other[1..]).value;
        FilledSpans(g.rest, other[1..], s, k + |a|);
        var j := if g.item.Star? then Shortest(g.rest, s, k) else k + 1;
        assert Pieces(g, s, k) == [s[k..j]] + Pieces(g.rest, s, j);
        assert Pieces(g, s, k)[1..] == Pieces(g.rest, s, j);
        PiecesShortestCount(g.rest, s, j, other[1..]);
        if j == k + |a| {
          PiecesShortest(g.rest, s, j, other[1..]);
        }
      }
    }
  }

  function Wildcards(g: Pattern): nat {
    if g.End? then 0 else (if IsWild(g.item) then 1 else 0) + Wildcards(g.rest)
  }

  /** There is one piece for every wildcard. */
  lemma {:induction false} PiecesShortestCount(g: Pattern, s: Text, k: nat, other: seq<Text>)
    requires k <= |s| && Spans(g, s, k, |s|) && Fill(g, other).Some?
    ensures |Pieces(g, s, k)| == |other| == Wildcards(g)
    decreases g
  {
    if g.Then? {
      var j := if g.item.Star? then Shortest(g.rest, s, k) else k + 1;
      PiecesShortestCount(g.rest, s, j, if IsWild(g.item) then other[1..] else other);
    }
  }

  // ----- when the assertion in the star loop fails -----

  /** The star loop asserts that the subject is not used up before it tries the rest of the
      pattern there; this says that some star of g runs into that assertion. */
  predicate Exhausts(g: Pattern, s: Text, k: nat)
    requires k <= |s| && Spans(g, s, k, |s|)
    decreases g
  {
    if g.End? || g == Then(Star, End) then false
    else if g.item.Star? then
      var j := Shortest(g.rest, s, k);
      j == |s| || Exhausts(g.rest, s, j)
    else Exhausts(g.rest, s, k + 1)
  }

  /** The pattern ends in two adjacent unquoted stars. */
  predicate EndsInTwoStars(g: Pattern) {
    g.Then? && (g == Then(Star, Then(Star, End)) || EndsInTwoStars(g.rest))
  }

  /** The pattern without the stars it ends in. */
  function Trim(g: Pattern): Pattern {
    if AllStars(g) then End else Then(g.item, Trim(g.rest))
  }

  lemma {:induction false} TwoStarsInARow(g: Pattern)
    requires AllStars(g)
    ensures EndsInTwoStars(g) <==> g.Then? && g.rest.Then?
  {
    if g.Then? && g.rest.Then? {
      TwoStarsInARow(g.rest);
    }
  }

  lemma {:induction false} StarsSpanAnything(g: Pattern, s: Text, k: nat)
    requires k <= |s| && AllStars(g) && g.Then?
    ensures Spans(g, s, k, |s|)
    decreases |s| - k
  {
    if k < |s| {
      StarsSpanAnything(g, s, k + 1);
    } else {
      EmptySpan(g, s, k);
    }
  }

  /** The stars at the end of a pattern take whatever is left. */
  lemma {:induction false} TrimmedSpan(g: Pattern, s: Text, k: nat, m: nat)
    requires k <= m <= |s| && EndsInTwoStars(g) && Spans(Trim(g), s, k, m)
    ensures Spans(g, s, k, |s|)
    decreases g, m - k
  {
    if AllStars(g) {
      StarsSpanAnything(g, s, k);
    } else {
      if g.item.Star? {
        if Spans(Trim(g.rest), s, k, m) {
          TrimmedSpan(g.rest, s, k, m);
        } else {
          TrimmedSpan(g, s, k + 1, m);
        }
      } else {
        TrimmedSpan(g.rest, s, k + 1, m);
      }
    }
  }

  lemma {:induction false} SpanTrimmed(g: Pattern, s: Text, k: nat) returns (m: nat)
    requires k <= |s| && Spans(g, s, k, |s|)
    ensures k <= m <= |s| && Spans(Trim(g), s, k, m)
    decreases g, |s| - k
  {
    if AllStars(g) {
      m := k;
    } else if g.item.Star? {
      if Spans(g.rest, s, k, |s|) {
        m := SpanTrimmed(g.rest, s, k);
      } else {
        m := SpanTrimmed(g, s, k + 1);
      }
    } else {
      m := SpanTrimmed(g.rest, s, k + 1);
    }
  }

  /** If g spans from an earlier start to a later end and from a later start to an earlier
      end, then it also spans from the earlier start to some earlier end. */
  lemma {:induction false} Exchange(g: Pattern, s: Text, k: nat, e: nat, k': nat, e': nat) returns (m: nat)
    requires k <= k' <= e' < e <= |s| && Spans(g, s, k, e) && Spans(g, s, k', e')
    ensures k <= m < e && Spans(g, s, k, m)
    decreases g
  {
    if g.item.Star? {
      var j := StarSplit(g.rest, s, k', e');
      StarFrom(g.rest, s, k, j, e');
      m := e';
    } else {
      m := Exchange(g.rest, s, k + 1, e, k' + 1, e');
    }
  }

  /** A proper prefix of what is left of the subject already matches the pattern without
      the stars it ends in. */
  ghost predicate PrefixMatches(g: Pattern, s: Text, k: nat)
    requires k <= |s|
  {
    exists m :: k <= m < |s| && Spans(Trim(g), s, k, m)
  }

  /** Exactly when the assertion fails on a subject that matches. */
  lemma {:induction false} ExhaustsExactly(g: Pattern, s: Text, k: nat)
    requires k <= |s| && Spans(g, s, k, |s|)
    ensures Exhausts(g, s, k) <==> EndsInTwoStars(g) && !PrefixMatches(g, s, k)
    decreases g
  {
    if g.End? {
    } else if AllStars(g) {
      TwoStarsInARow(g);
      if g.rest.Then? {
        StarsSpanAnything(g.rest, s, k);
        ExhaustsExactly(g.rest, s, k);
        if k < |s| {
          assert Spans(Trim(g), s, k, k) && Spans(Trim(g.rest), s, k, k);
        }
      }
    } else if g.item.Star? {
      ExhaustsAtStar(g, s, k);
    } else {
      var k' := k + 1;
      ExhaustsExactly(g.rest, s, k');
      if PrefixMatches(g.rest, s, k') {
        var m: nat :| k' <= m < |s| && Spans(Trim(g.rest), s, k', m);
        assert Spans(Trim(g), s, k, m);
      }
      if PrefixMatches(g, s, k) {
        var m: nat :| k <= m < |s| && Spans(Trim(g), s, k, m);
        assert Spans(Trim(g.rest), s, k', m);
      }
    }
  }

  lemma {:induction false} ExhaustsAtStar(g: Pattern, s: Text, k: nat)
    requires k <= |s| && Spans(g, s, k, |s|) && g.Then? && g.item.Star? && !AllStars(g)
    ensures Exhausts(g, s, k) <==> EndsInTwoStars(g) && !PrefixMatches(g, s, k)
    decreases g, 0
  {
    var j := Shortest(g.rest, s, k);
    EmptySpan(g.rest, s, |s|);
    ExhaustsExactly(g.rest, s, j);
    if m: nat :| j <= m < |s| && Spans(Trim(g.rest), s, j, m) {
      StarFrom(Trim(g.rest), s, k, j, m);
      assert Spans(Trim(g), s, k, m);
    }
    if EndsInTwoStars(g) && PrefixMatches(g, s, k) {
      var m: nat :| k <= m < |s| && Spans(Trim(g), s, k, m);
      var i := StarSplit(Trim(g.rest), s, k, m);
      TrimmedSpan(g.rest, s, i, m);
      var e := SpanTrimmed(g.rest, s, j);
      if e == |s| {
        var e' := Exchange(Trim(g.rest), s, j, e, i, m);
      }
    }
  }

  // ----- extractsinglematch -----

  /** haswild: is there an unquoted wildcard character from position i on? */
  method HasWild(p: Text, i: nat, q: Quoting) returns (r: bool)
    requires i <= |p|
    ensures r <==> WildFrom(p, i, q)
  {
    if q.Quoted? {
      QuotedNotWild(p, i);
      return false;
    }
    var j := i;
    while At(p, j) != 0
      invariant i <= j <= |p|
      invariant WildFrom(p, i, q) <==> WildFrom(p, j, q)
      decreases |p| - j
    {
      if At(p, j) in {'*' as int, '?' as int, '[' as int} && !IsQuoted(q, p, j) {
        return true;
      }
      j := j + 1;
    }
    r := false;
  }

  predicate WildFrom(p: Text, i: nat, q: Quoting)
    requires i <= |p|
    decreases |p| - i
  {
    i < |p| && ((p[i] in {'*' as int, '?' as int, '[' as int} && !IsQuoted(q, p, i)) || WildFrom(p, i + 1, q))
  }

  lemma {:induction false} QuotedNotWild(p: Text, i: nat)
    requires i <= |p|
    ensures !WildFrom(p, i, Quoted)
    decreases |p| - i
  {
    if i < |p| {
      QuotedNotWild(p, i + 1);
    }
  }

  lemma {:induction false} NoWildNoPieces(p: Text, i: nat, q: Quoting, s: Text, k: nat)
    requires i <= |p| && k <= |s| && !WildFrom(p, i, q) && Spans(Parse(p, q, i), s, k, |s|)
    ensures Pieces(Parse(p, q, i), s, k) == [] && !Exhausts(Parse(p, q, i), s, k)
    decreases |p| - i
  {
    if i < |p| {
      NoWildNoPieces(p, i + 1, q, s, k + 1);
    }
  }

  function Reverse(a: seq<Text>): seq<Text> {
    if a == [] then [] else Reverse(a[1..]) + [a[0]]
  }

  /** The C assertion either holds all the way or stops the shell. */
  datatype Extraction = Extracted(pieces: seq<Text>) | AssertionFailed

  ghost predicate ExtractionOf(g: Pattern, s: Text, k: nat, result: seq<Text>, r: Extraction)
    requires k <= |s| && Spans(g, s, k, |s|)
  {
    r == if Exhausts(g, s, k) then AssertionFailed else Extracted(Reverse(Pieces(g, s, k)) + result)
  }

  /** The first item of the pattern gives one piece, if it is a wildcard, and the rest the others. */
  lemma FirstPiece(g: Pattern, s: Text, k: nat)
    requires k <= |s| && Spans(g, s, k, |s|) && g.Then? && g != Then(Star, End)
    requires g.item.Star? ==> Shortest(g.rest, s, k) < |s|
    ensures var j := if g.item.Star? then Shortest(g.rest, s, k) else k + 1;
      && k <= j <= |s| && Spans(g.rest, s, j, |s|)
      && Pieces(g, s, k) == (if IsWild(g.item) then [s[k..j]] else []) + Pieces(g.rest, s, j)
      && Exhausts(g, s, k) == Exhausts(g.rest, s, j)
  {
    hide Accepts;
    if !IsWild(g.item) {
      assert [] + Pieces(g.rest, s, k + 1) == Pieces(g.rest, s, k + 1);
    }
  }

  lemma ReverseOne(piece: seq<Text>, ps: seq<Text>, result: seq<Text>)
    requires |piece| <= 1
    ensures Reverse(piece + ps) + result == Reverse(ps) + (piece + result)
  {
    if piece == [] {
      assert piece + ps == ps && piece + result == result;
    } else {
      assert (piece + ps)[1..] == ps && [piece[0]] == piece;
      assert Reverse(ps) + piece + result == Reverse(ps) + (piece + result);
    }
  }

  lemma OnePiece(g: Pattern, s: Text, k: nat, result: seq<Text>, r: Extraction)
    requires k <= |s| && Spans(g, s, k, |s|) && g.Then? && g != Then(Star, End)
    requires g.item.Star? ==> Shortest(g.rest, s, k) < |s|
    requires
      var j := if g.item.Star? then Shortest(g.rest, s, k) else k + 1;
      j <= |s| && Spans(g.rest, s, j, |s|) &&
      ExtractionOf(g.rest, s, j, (if IsWild(g.item) then [s[k..j]] else []) + result, r)
    ensures ExtractionOf(g, s, k, result, r)
  {
    hide Pieces, Exhausts, Spans, Shortest, Reverse;
    FirstPiece(g, s, k);
    var j := if g.item.Star? then Shortest(g.rest, s, k) else k + 1;
    ReverseOne(if IsWild(g.item) then [s[k..j]] else [], Pieces(g.rest, s, j), result);
  }

  /** extractsinglematch: pieces are pushed on the front of result.  No wildcards or no
      match gives the empty list. */
  method ExtractSingle(s: Text, k0: nat, p: Text, i0: nat, q: Quoting, result0: seq<Text>) returns (r: Extraction)
    requires k0 <= |s| && i0 <= |p| && QuotingFor(q, p)
    ensures !WildFrom(p, i0, q) || !Spans(Parse(p, q, i0), s, k0, |s|) ==> r == Extracted([])
    ensures WildFrom(p, i0, q) && Spans(Parse(p, q, i0), s, k0, |s|) ==>
      ExtractionOf(Parse(p, q, i0), s, k0, result0, r)
    decreases |p| - i0, 1
  {
    var wild := HasWild(p, i0, q);
    if !wild {
      return Extracted([]);
    }
    var matches := Match(s, k0, p, i0, q);
    if !matches {
      return Extracted([]);
    }
    if q.Quoted? {
      QuotedNotWild(p, i0);
    }
    r := ExtractMatched(s, k0, p, i0, q, result0);
  }

  method ExtractMatched(s: Text, k0: nat, p: Text, i0: nat, q: Quoting, result0: seq<Text>) returns (r: Extraction)
    requires k0 <= |s| && i0 <= |p| && QuotingFor(q, p) && !q.Quoted? && Spans(Parse(p, q, i0), s, k0, |s|)
    ensures ExtractionOf(Parse(p, q, i0), s, k0, result0, r)
    decreases |p| - i0, 0
  {
    var i: nat, k: nat, result := i0, k0, result0;
    while At(p, i) != 0
      invariant i0 <= i <= |p| && k <= |s| && Spans(Parse(p, q, i), s, k, |s|)
      invariant forall x :: ExtractionOf(Parse(p, q, i), s, k, result, x) ==> ExtractionOf(Parse(p, q, i0), s, k0, result0, x)
      decreases |p| - i
    {
      ghost var g, k1, i1, result1 := Parse(p, q, i), k, i, result;
      if IsQuoted(q, p, i) {
        i := i + 1;
      } else {
        var c := p[i];
        i := i + 1;
        if c == '*' as int {
          r := ExtractStar(s, k, p, i, q, result);
          return;
        } else if c == '[' as int {
          var j := RangeMatching(p, q, i, s[k]);
          match j {
            case Skip(n) =>
              i := i + n;
              result := [[s[k]]] + result;
            case RangeError =>
          }
        } else if c == '?' as int {
          result := [[s[k]]] + result;
        }
      }
      assert s[k..k + 1] == [s[k]];
      k := k + 1;
      forall x | ExtractionOf(Parse(p, q, i), s, k, result, x) ensures ExtractionOf(g, s, k1, result1, x) {
        assert [] + result1 == result1;
        OnePiece(g, s, k1, result1, x);
      }
    }
    r := Extracted(result);
    assert [] + result == result;
  }

  lemma LastStar(s: Text, k: nat, result: seq<Text>)
    requires k <= |s| && Spans(Then(Star, End), s, k, |s|)
    ensures ExtractionOf(Then(Star, End), s, k, result, Extracted([s[k..]] + result))
  {
    assert s[k..|s|] == s[k..];
    assert Pieces(Then(Star, End), s, k) == [s[k..]] + [];
    assert Reverse([s[k..]] + []) == [s[k..]];
  }

  lemma StarExhausted(g: Pattern, s: Text, k: nat, result: seq<Text>)
    requires k <= |s| && Spans(Then(Star, g), s, k, |s|) && g.Then? && Shortest(g, s, k) == |s|
    ensures ExtractionOf(Then(Star, g), s, k, result, AssertionFailed)
  {}

  lemma NoMorePieces(g: Pattern, s: Text, k: nat, result: seq<Text>)
    requires k <= |s| && Spans(g, s, k, |s|) && Pieces(g, s, k) == [] && !Exhausts(g, s, k)
    ensures ExtractionOf(g, s, k, result, Extracted(result))
  {
    assert [] + result == result;
  }

  /** The star case: the star stands just before position i. */
  method ExtractStar(s: Text, k0: nat, p: Text, i: nat, q: Quoting, result: seq<Text>) returns (r: Extraction)
    requires k0 <= |s| && 0 < i <= |p| && QuotingFor(q, p) && !q.Quoted?
    requires Spans(Then(Star, Parse(p, q, i)), s, k0, |s|)
    ensures ExtractionOf(Then(Star, Parse(p, q, i)), s, k0, result, r)
    decreases |p| - i, 2
  {
    hide IsQuoted, Member, Accepts, Exhausts, Pieces, ClassRanges, ParseClass;
    ghost var g := Parse(p, q, i);
    if At(p, i) == 0 {
      LastStar(s, k0, result);
      return Extracted([s[k0..]] + result);
    }
    var k: nat := k0;
    while true
      invariant k0 <= k <= Shortest(g, s, k0)
      invariant forall j :: k0 <= j < k ==> !Spans(g, s, j, |s|)
      decreases |s| - k
    {
      if At(s, k) == 0 {
        StarExhausted(g, s, k0, result);
        return AssertionFailed;
      }
      var here := Match(s, k, p, i, q);
      if here {
        var wild := HasWild(p, i, q);
        if wild {
          r := ExtractSingle(s, k, p, i, q, [s[k0..k]] + result);
        } else {
          r := Extracted([s[k0..k]] + result);
          NoWildNoPieces(p, i, q, s, k);
          NoMorePieces(g, s, k, [s[k0..k]] + result);
        }
        OnePiece(Then(Star, g), s, k0, result, r);
        return;
      }
      k := k + 1;
    }
  }

  // ----- what extraction achieves -----

  lemma {:induction false} ReverseAppend(a: seq<Text>, b: seq<Text>)
    ensures Reverse(a + b) == Reverse(b) + Reverse(a)
  {
    if a == [] {
      assert a + b == b && Reverse(b) + [] == Reverse(b);
    } else {
      assert (a + b)[1..] == a[1..] + b;
      ReverseAppend(a[1..], b);
    }
  }

  lemma {:induction false} ReverseTwice(a: seq<Text>)
    ensures Reverse(Reverse(a)) == a
  {
    if a != [] {
      ReverseTwice(a[1..]);
      ReverseAppend(Reverse(a[1..]), [a[0]]);
      assert Reverse([a[0]]) == [a[0]];
    }
  }

  /** For a subject that matches: the assertion fails exactly when the pattern ends in two
      stars and nothing shorter than the whole subject matches the pattern without them;
      otherwise the pieces rebuild the subject and are the shortest that do. */
  lemma ExtractionCorrect(p: Text, q: Quoting, s: Text, r: Extraction)
    requires Spans(Parse(p, q, 0), s, 0, |s|) && ExtractionOf(Parse(p, q, 0), s, 0, [], r)
    ensures r.AssertionFailed? <==> EndsInTwoStars(Parse(p, q, 0)) && !PrefixMatches(Parse(p, q, 0), s, 0)
    ensures r.Extracted? ==> Fill(Parse(p, q, 0), Reverse(r.pieces)) == Some(s)
    ensures r.Extracted? ==>
      forall other :: Fill(Parse(p, q, 0), other) == Some(s) ==> ShorterFirst(Reverse(r.pieces), other)
  {
    var g := Parse(p, q, 0);
    ExhaustsExactly(g, s, 0);
    if r.Extracted? {
      var ps := Pieces(g, s, 0);
      assert Reverse(ps) + [] == Reverse(ps);
      ReverseTwice(ps);
      PiecesRebuild(g, s, 0);
      assert s[0..] == s;
      forall other | Fill(g, other) == Some(s) ensures ShorterFirst(ps, other) {
        PiecesShortest(g, s, 0, other);
      }
    }
  }

  /** A word matches exactly when some pieces for the wildcards rebuild it. */
  lemma MatchesIffFilled(p: Text, q: Quoting, s: Text)
    ensures Spans(Parse(p, q, 0), s, 0, |s|) <==> exists pieces :: Fill(Parse(p, q, 0), pieces) == Some(s)
  {
    var g := Parse(p, q, 0);
    assert s[0..] == s;
    if Spans(g, s, 0, |s|) {
      PiecesRebuild(g, s, 0);
    }
    if pieces :| Fill(g, pieces) == Some(s) {
      FilledSpans(g, pieces, s, 0);
    }
  }

  /** The word "a" matches the unquoted pattern "a**", and extracting from it runs into the
      assertion. */
  lemma AssertionCanFail(p: Text, s: Text)
    requires p == ['a' as int, '*' as int, '*' as int] && s == ['a' as int]
    ensures Spans(Parse(p, Unquoted, 0), s, 0, |s|) && Exhausts(Parse(p, Unquoted, 0), s, 0)
  {
    var g := Then(Star, Then(Star, End));
    assert Parse(p, Unquoted, 3) == End;
    assert Parse(p, Unquoted, 2) == Then(Star, End);
    assert Parse(p, Unquoted, 1) == g;
    assert Spans(End, s, 1, 1);
    assert Spans(Then(Star, End), s, 1, 1);
    assert Spans(g, s, 1, 1);
  }

  /** A wildcard is one of three characters, unquoted. */
  lemma {:induction false} WildExactly(p: Text, i: nat, q: Quoting)
    requires i <= |p|
    ensures WildFrom(p, i, q) <==> exists j :: i <= j < |p| && (Raw(p, q, j, '*') || Raw(p, q, j, '?') || Raw(p, q, j, '['))
    decreases |p| - i
  {
    if i < |p| {
      WildExactly(p, i + 1, q);
      assert Raw(p, q, i, '*') || Raw(p, q, i, '?') || Raw(p, q, i, '[') <==>
        p[i] in {'*' as int, '?' as int, '[' as int} && !IsQuoted(q, p, i);
    }
  }

  // ----- extractmatches -----

  /** The pieces of one subject for one pattern; none when it has no wildcard or no match. */
  function PiecesFor(s: Text, p: Text, q: Quoting): Extraction {
    var g := Parse(p, q, 0);
    if !WildFrom(p, 0, q) || !Spans(g, s, 0, |s|) then Extracted([])
    else if Exhausts(g, s, 0) then AssertionFailed
    else Extracted(Pieces(g, s, 0))
  }

  /** The first pattern that yields pieces decides. */
  function FirstPieces(s: Text, patterns: seq<(Text, Quoting)>): Extraction {
    if patterns == [] then Extracted([])
    else
      var r := PiecesFor(s, patterns[0].0, patterns[0].1);
      if r == Extracted([]) then FirstPieces(s, patterns[1..]) else r
  }

  function AllPieces(subjects: seq<Text>, patterns: seq<(Text, Quoting)>): Extraction {
    if subjects == [] then Extracted([])
    else
      match FirstPieces(subjects[0], patterns)
      case AssertionFailed => AssertionFailed
      case Extracted(a) =>
        match AllPieces(subjects[1..], patterns)
        case AssertionFailed => AssertionFailed
        case Extracted(b) => Extracted(a + b)
  }

  /** The pattern does not match, or only as it is, without wildcards to put pieces in for. */
  predicate NothingToGive(s: Text, p: Text, q: Quoting) {
    Spans(Parse(p, q, 0), s, 0, |s|) ==> Fill(Parse(p, q, 0), []) == Some(s)
  }

  /** These pieces rebuild the subject and are the shortest that do. */
  ghost predicate Rebuilds(s: Text, p: Text, q: Quoting, pieces: seq<Text>) {
    && Fill(Parse(p, q, 0), pieces) == Some(s)
    && forall other :: Fill(Parse(p, q, 0), other) == Some(s) ==> ShorterFirst(pieces, other)
  }

  ghost predicate FailsAssertion(s: Text, p: Text, q: Quoting) {
    Spans(Parse(p, q, 0), s, 0, |s|) && EndsInTwoStars(Parse(p, q, 0)) && !PrefixMatches(Parse(p, q, 0), s, 0)
  }

  /** What one pattern gives. */
  lemma OnePattern(s: Text, p: Text, q: Quoting)
    ensures PiecesFor(s, p, q).AssertionFailed? <==> FailsAssertion(s, p, q)
    ensures PiecesFor(s, p, q) == Extracted([]) ==> NothingToGive(s, p, q)
    ensures PiecesFor(s, p, q).Extracted? && PiecesFor(s, p, q).pieces != [] ==> Rebuilds(s, p, q, PiecesFor(s, p, q).pieces)
  {
    var g := Parse(p, q, 0);
    assert s[0..] == s;
    if Spans(g, s, 0, |s|) {
      ExhaustsExactly(g, s, 0);
      PiecesRebuild(g, s, 0);
      if !WildFrom(p, 0, q) {
        NoWildNoPieces(p, 0, q, s, 0);
      }
      forall other | Fill(g, other) == Some(s) ensures ShorterFirst(Pieces(g, s, 0), other) {
        PiecesShortest(g, s, 0, other);
      }
    }
  }

  /** The first pattern with something to give decides: its pieces rebuild the subject, and every
      earlier pattern has nothing to give. */
  ghost predicate Decides(s: Text, patterns: seq<(Text, Quoting)>, i: nat, r: Extraction)
    requires i < |patterns|
  {
    && (forall j :: 0 <= j < i ==> NothingToGive(s, patterns[j].0, patterns[j].1))
    && (r.AssertionFailed? ==> FailsAssertion(s, patterns[i].0, patterns[i].1))
    && (r.Extracted? ==> Rebuilds(s, patterns[i].0, patterns[i].1, r.pieces) && !FailsAssertion(s, patterns[i].0, patterns[i].1))
  }

  lemma {:induction false} FirstDecides(s: Text, patterns: seq<(Text, Quoting)>)
    ensures var r := FirstPieces(s, patterns);
      if r == Extracted([]) then forall j :: 0 <= j < |patterns| ==> NothingToGive(s, patterns[j].0, patterns[j].1)
      else exists i :: 0 <= i < |patterns| && Decides(s, patterns, i, r)
    decreases |patterns|
  {
    hide NothingToGive, FailsAssertion, Rebuilds, PiecesFor;
    if patterns != [] {
      var r, rest := FirstPieces(s, patterns), patterns[1..];
      OnePattern(s, patterns[0].0, patterns[0].1);
      if PiecesFor(s, patterns[0].0, patterns[0].1) != Extracted([]) {
        assert Decides(s, patterns, 0, r);
      } else {
        FirstDecides(s, rest);
        if r == Extracted([]) {
          forall j | 0 <= j < |patterns| ensures NothingToGive(s, patterns[j].0, patterns[j].1) {
            if j > 0 {
              assert NothingToGive(s, rest[j - 1].0, rest[j - 1].1);
            }
          }
        } else {
          var i :| 0 <= i < |rest| && Decides(s, rest, i, r);
          DecidesLater(s, patterns, i, r);
        }
      }
    }
  }

  lemma DecidesLater(s: Text, patterns: seq<(Text, Quoting)>, i: nat, r: Extraction)
    requires patterns != [] && NothingToGive(s, patterns[0].0, patterns[0].1)
    requires i < |patterns| - 1 && Decides(s, patterns[1..], i, r)
    ensures Decides(s, patterns, i + 1, r)
  {
    hide NothingToGive, FailsAssertion, Rebuilds;
    var rest := patterns[1..];
    forall j | 0 <= j < i + 1 ensures NothingToGive(s, patterns[j].0, patterns[j].1) {
      if j > 0 {
        assert NothingToGive(s, rest[j - 1].0, rest[j - 1].1);
      }
    }
  }

  /** The pieces of the subjects stand in the order of the subjects; one failure is a failure. */
  lemma {:induction false} SubjectsInOrder(a: seq<Text>, s: Text, b: seq<Text>, patterns: seq<(Text, Quoting)>)
    ensures var l, m, r := AllPieces(a, patterns), FirstPieces(s, patterns), AllPieces(b, patterns);
      AllPieces(a + [s] + b, patterns) ==
        if l.Extracted? && m.Extracted? && r.Extracted? then Extracted(l.pieces + m.pieces + r.pieces) else AssertionFailed
    ensures AllPieces([], patterns) == Extracted([])
    decreases |a|
  {
    hide FirstPieces;
    var all := a + [s] + b;
    if a == [] {
      assert all[0] == s && all[1..] == b;
    } else {
      assert all[0] == a[0] && all[1..] == a[1..] + [s] + b;
      SubjectsInOrder(a[1..], s, b, patterns);
    }
  }

  method ExtractFirst(s: Text, patterns: seq<(Text, Quoting)>) returns (r: Extraction)
    requires forall i :: 0 <= i < |patterns| ==> QuotingFor(patterns[i].1, patterns[i].0)
    ensures r == FirstPieces(s, patterns)
  {
    r := Extracted([]);
    var i := 0;
    while i < |patterns|
      invariant i <= |patterns| && r == Extracted([])
      invariant FirstPieces(s, patterns) == FirstPieces(s, patterns[i..])
    {
      var (p, q) := patterns[i];
      var single := ExtractSingle(s, 0, p, 0, q, []);
      assert patterns[i..][1..] == patterns[i + 1..];
      match single {
        case AssertionFailed =>
          return AssertionFailed;
        case Extracted(reversed) =>
          ghost var g := Parse(p, q, 0);
          if WildFrom(p, 0, q) && Spans(g, s, 0, |s|) {
            assert reversed == Reverse(Pieces(g, s, 0)) + [] == Reverse(Pieces(g, s, 0));
            ReverseTwice(Pieces(g, s, 0));
          }
          assert PiecesFor(s, p, q) == Extracted(Reverse(reversed));
          if reversed != [] {
            ReverseTwice(reversed);
            return Extracted(Reverse(reversed));
          }
      }
      i := i + 1;
    }
  }

  function Prefixed(result: seq<Text>, e: Extraction): Extraction {
    if e.AssertionFailed? then AssertionFailed else Extracted(result + e.pieces)
  }

  lemma NextSubject(result: seq<Text>, subjects: seq<Text>, patterns: seq<(Text, Quoting)>)
    requires subjects != []
    ensures var first := FirstPieces(subjects[0], patterns);
      Prefixed(result, AllPieces(subjects, patterns)) ==
        if first.AssertionFailed? then AssertionFailed
        else Prefixed(result + first.pieces, AllPieces(subjects[1..], patterns))
  {
    hide FirstPieces;
    var first, rest := FirstPieces(subjects[0], patterns), AllPieces(subjects[1..], patterns);
    if first.Extracted? && rest.Extracted? {
      assert result + (first.pieces + rest.pieces) == result + first.pieces + rest.pieces;
    }
  }

  lemma NoSubject(result: seq<Text>, patterns: seq<(Text, Quoting)>)
    ensures Prefixed(result, AllPieces([], patterns)) == Extracted(result)
  {
    assert result + [] == result;
  }

  lemma NothingBefore(e: Extraction)
    ensures Prefixed([], e) == e
  {
    if e.Extracted? {
      assert [] + e.pieces == e.pieces;
    }
  }

  /** extractmatches */
  method ExtractMatches(subjects: seq<Text>, patterns: seq<(Text, Quoting)>) returns (r: Extraction)
    requires forall i :: 0 <= i < |patterns| ==> QuotingFor(patterns[i].1, patterns[i].0)
    ensures r == AllPieces(subjects, patterns)
  {
    hide FirstPieces, AllPieces, Prefixed;
    var result: seq<Text> := [];
    NothingBefore(AllPieces(subjects, patterns));
    assert subjects[0..] == subjects;
    for i := 0 to |subjects|
      invariant AllPieces(subjects, patterns) == Prefixed(result, AllPieces(subjects[i..], patterns))
    {
      assert subjects[i..][1..] == subjects[i + 1..];
      NextSubject(result, subjects[i..], patterns);
      var pieces := ExtractFirst(subjects[i], patterns);
      if pieces.AssertionFailed? {
        return AssertionFailed;
      }
      result := result + pieces.pieces;
    }
    assert subjects[|subjects|..] == [];
    NoSubject(result, patterns);
    r := Extracted(result);
  }
}
