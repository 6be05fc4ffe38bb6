/** var.c on values: what the variables are, what they look like in the environment, and when
    the cached strings and the sorted environment may be used. */
module Variables {
  import opened CStrings
  import EnvNames
  import EnvLists

  /** A closure may have captured a lexical binding, by its place. */
  datatype Term = Str(text: CString) | Closure(tree: CString, binding: Option<nat>)

  type List = seq<Term>

  datatype Binding = Binding(name: CString, defn: List, next: Option<nat>)

  /** How a closure with bindings prints; it may depend on every lexical binding. */
  type Printer = (CString, nat, seq<Binding>) -> CString

  predicate HasBindings(defn: List) {
    exists i :: 0 <= i < |defn| && defn[i].Closure? && defn[i].binding.Some?
  }

  function GetStr(term: Term, lexical: seq<Binding>, printer: Printer): CString {
    match term
    case Str(text) => text
    case Closure(tree, None) => tree
    case Closure(tree, Some(b)) => printer(tree, b, lexical)
  }

  function GetStrs(defn: List, lexical: seq<Binding>, printer: Printer): seq<CString> {
    seq(|defn|, i requires 0 <= i < |defn| => GetStr(defn[i], lexical, printer))
  }

  function Render(name: CString, defn: List, lexical: seq<Binding>, printer: Printer): CString {
    EnvLists.Entry(name, GetStrs(defn, lexical, printer))
  }

  /** A list without captured bindings prints the same in every lexical store. */
  lemma RenderWithout(name: CString, defn: List, before: seq<Binding>, lexical: seq<Binding>, printer: Printer)
    requires !HasBindings(defn)
    ensures Render(name, defn, before, printer) == Render(name, defn, lexical, printer)
  {
    assert GetStrs(defn, before, printer) == GetStrs(defn, lexical, printer);
  }

  /** The names differ, so do the strings. */
  lemma RenderNames(m: CString, n: CString, d: List, e: List, lexical: seq<Binding>, printer: Printer)
    requires Render(m, d, lexical, printer) == Render(n, e, lexical, printer)
    ensures m == n
  {
    hide EnvLists.Entry, EnvLists.Export, EnvLists.Import, EnvLists.Specials, EnvNames.Encode, EnvNames.Decode, GetStrs;
    EnvLists.EntryRoundTrip(m, GetStrs(d, lexical, printer));
    EnvLists.EntryRoundTrip(n, GetStrs(e, lexical, printer));
  }

  // ----- names -----

  predicate SpecialVar(name: CString) {
    |name| == 1 && (name[0] == '*' as int || name[0] == '0' as int)
  }

  /** A positive number. */
  predicate Counting(name: CString) {
    name != [] && (forall i :: 0 <= i < |name| ==> EnvNames.IsDigit(name[i])) && name != ['0' as int]
  }

  /** validatevar */
  predicate ValidName(name: CString) {
    name != [] && !Counting(name)
  }

  /** Names that stand for nothing or for arguments: empty, or a number other than 0. */
  predicate Refused(name: CString) {
    name == [] || (name != ['0' as int] && forall c :: c in name ==> c in {48, 49, 50, 51, 52, 53, 54, 55, 56, 57})
  }

  lemma RefusedExactly(name: CString)
    ensures ValidName(name) <==> !Refused(name)
  {
    assert (forall i :: 0 <= i < |name| ==> EnvNames.IsDigit(name[i])) <==> forall c :: c in name ==> EnvNames.IsDigit(c);
    assert forall c: int :: EnvNames.IsDigit(c) <==> c in {48, 49, 50, 51, 52, 53, 54, 55, 56, 57};
  }

  predicate Exportable(name: CString, noexport: set<CString>) {
    !SpecialVar(name) && name !in noexport
  }

  // ----- what a variable is -----

  datatype Def = Def(defn: List, internal: bool)

  /** The global variables and the lexical bindings. */
  datatype Meaning = Meaning(vars: map<CString, Def>, lexical: seq<Binding>)

  predicate Chained(lexical: seq<Binding>) {
    forall i :: 0 <= i < |lexical| ==> lexical[i].next.Some? ==> lexical[i].next.value < i
  }

  /** The first binding of the name on the chain from b. */
  function Lookup(lexical: seq<Binding>, b: Option<nat>, name: CString): (r: Option<nat>)
    requires Chained(lexical) && (b.Some? ==> b.value < |lexical|)
    ensures r.Some? ==> r.value < |lexical| && lexical[r.value].name == name
    decreases if b.Some? then b.value + 1 else 0
  {
    if b.None? then None
    else if lexical[b.value].name == name then b
    else Lookup(lexical, lexical[b.value].next, name)
  }

  /** The chain from b comes by p. */
  predicate Reaches(lexical: seq<Binding>, b: Option<nat>, p: nat)
    requires Chained(lexical) && (b.Some? ==> b.value < |lexical|)
    decreases if b.Some? then b.value + 1 else 0
  {
    b.Some? && (p == b.value || Reaches(lexical, lexical[b.value].next, p))
  }

  /** The chain goes on to bindings that are older. */
  lemma {:induction false} ReachesOlder(lexical: seq<Binding>, b: Option<nat>, p: nat)
    requires Chained(lexical) && (b.Some? ==> b.value < |lexical|) && Reaches(lexical, b, p)
    ensures b.Some? && p <= b.value
    decreases if b.Some? then b.value + 1 else 0
  {
    if p != b.value {
      ReachesOlder(lexical, lexical[b.value].next, p);
    }
  }

  /** p is the innermost binding of the name that the chain comes by. */
  predicate Innermost(lexical: seq<Binding>, b: Option<nat>, name: CString, p: nat)
    requires Chained(lexical) && (b.Some? ==> b.value < |lexical|)
  {
    && p < |lexical| && Reaches(lexical, b, p) && lexical[p].name == name
    && forall q :: p < q < |lexical| && Reaches(lexical, b, q) ==> lexical[q].name != name
  }

  predicate Bound(lexical: seq<Binding>, b: Option<nat>, name: CString)
    requires Chained(lexical) && (b.Some? ==> b.value < |lexical|)
  {
    exists q :: 0 <= q < |lexical| && Reaches(lexical, b, q) && lexical[q].name == name
  }

  /** Lookup finds the innermost binding of the name, and nothing only if there is none. */
  lemma {:induction false} LookupExactly(lexical: seq<Binding>, b: Option<nat>, name: CString)
    requires Chained(lexical) && (b.Some? ==> b.value < |lexical|)
    ensures Lookup(lexical, b, name).Some? <==> Bound(lexical, b, name)
    ensures forall p: nat :: Lookup(lexical, b, name) == Some(p) <==> Innermost(lexical, b, name, p)
    decreases if b.Some? then b.value + 1 else 0
  {
    if b.Some? {
      forall q: nat | Reaches(lexical, b, q) ensures q <= b.value {
        ReachesOlder(lexical, b, q);
      }
      if lexical[b.value].name == name {
        assert Reaches(lexical, b, b.value);
      } else {
        var next := lexical[b.value].next;
        LookupExactly(lexical, next, name);
        forall q: nat | q < |lexical| && lexical[q].name == name
          ensures Reaches(lexical, b, q) <==> Reaches(lexical, next, q)
        {}
      }
    }
  }

  function Rebound(lexical: seq<Binding>, b: nat, defn: List): seq<Binding>
    requires b < |lexical|
  {
    lexical[b := lexical[b].(defn := defn)]
  }

  function Defined(vars: map<CString, Def>, name: CString, def: Def): map<CString, Def> {
    if def.defn != [] then vars[name := def] else vars - {name}
  }

  /** The definitions that go into the environment. */
  function Visible(vars: map<CString, Def>, noexport: set<CString>): map<CString, List> {
    map n | n in vars && vars[n].defn != [] && !vars[n].internal && Exportable(n, noexport) :: vars[n].defn
  }

  function Strings(visible: map<CString, List>, lexical: seq<Binding>, printer: Printer): set<CString> {
    set n | n in visible :: Render(n, visible[n], lexical, printer)
  }

  // ----- strcmp and qsort -----

  predicate Leq(s: CString, t: CString) {
    s == [] || (t != [] && (s[0] < t[0] || (s[0] == t[0] && Leq(s[1..], t[1..]))))
  }

  lemma {:induction false} LeqTotal(s: CString, t: CString)
    ensures Leq(s, t) || Leq(t, s)
  {
    if s != [] && t != [] {
      LeqTotal(s[1..], t[1..]);
    }
  }

  lemma {:induction false} LeqTransitive(s: CString, t: CString, u: CString)
    requires Leq(s, t) && Leq(t, u)
    ensures Leq(s, u)
  {
    if s != [] && s[0] == t[0] == u[0] {
      LeqTransitive(s[1..], t[1..], u[1..]);
    }
  }

  /** They first differ at k, where s has the lesser byte. */
  predicate LessAt(s: CString, t: CString, k: nat) {
    k < |s| && k < |t| && s[..k] == t[..k] && s[k] < t[k]
  }

  lemma LessLater(s: CString, t: CString, k: nat)
    requires s != [] && t != [] && s[0] == t[0]
    ensures !LessAt(s, t, 0) && (LessAt(s, t, k + 1) <==> LessAt(s[1..], t[1..], k))
  {
    if k < |s| - 1 && k < |t| - 1 {
      assert s[..k + 1] == [s[0]] + s[1..][..k] && t[..k + 1] == [t[0]] + t[1..][..k];
    }
  }

  lemma LessFirst(s: CString, t: CString, k: nat)
    requires s != [] && t != [] && s[0] != t[0]
    ensures LessAt(s, t, k) <==> k == 0 && s[0] < t[0]
  {
    if 0 < k < |s| && k < |t| {
      assert s[..k][0] == s[0] && t[..k][0] == t[0];
    }
  }

  predicate Less(s: CString, t: CString) {
    exists k: nat :: k < |s| && LessAt(s, t, k)
  }

  lemma LessExactly(s: CString, t: CString)
    requires s != [] && t != []
    ensures Less(s, t) <==> s[0] < t[0] || (s[0] == t[0] && Less(s[1..], t[1..]))
  {
    hide LessAt;
    if s[0] != t[0] {
      forall k: nat ensures LessAt(s, t, k) <==> k == 0 && s[0] < t[0] {
        LessFirst(s, t, k);
      }
      assert s[0] < t[0] ==> LessAt(s, t, 0);
    } else {
      LessLater(s, t, 0);
      if Less(s, t) {
        var k: nat :| k < |s| && LessAt(s, t, k);
        LessLater(s, t, k - 1);
        assert LessAt(s[1..], t[1..], k - 1);
      }
      if Less(s[1..], t[1..]) {
        var k: nat :| k < |s[1..]| && LessAt(s[1..], t[1..], k);
        LessLater(s, t, k);
        assert LessAt(s, t, k + 1);
      }
    }
  }

  /** One is a prefix of the other, or has the lesser byte where they first differ. */
  lemma {:induction false} LeqExactly(s: CString, t: CString)
    ensures Leq(s, t) <==> s <= t || Less(s, t)
  {
    hide Less;
    if s != [] && t != [] {
      assert s == [s[0]] + s[1..];
      LessExactly(s, t);
      LeqExactly(s[1..], t[1..]);
    } else {
      NothingLess(s, t);
    }
  }

  lemma NothingLess(s: CString, t: CString)
    requires s == [] || t == []
    ensures !Less(s, t)
  {}

  predicate Sorted(s: seq<CString>) {
    forall i, j :: 0 <= i < j < |s| ==> Leq(s[i], s[j])
  }

  function Insert(x: CString, s: seq<CString>): seq<CString> {
    if s == [] || Leq(x, s[0]) then [x] + s else [s[0]] + Insert(x, s[1..])
  }

  function Sort(s: seq<CString>): seq<CString> {
    if s == [] then [] else Insert(s[0], Sort(s[1..]))
  }

  lemma ConsSorted(x: CString, s: seq<CString>)
    requires Sorted(s) && (s != [] ==> Leq(x, s[0]))
    ensures Sorted([x] + s)
  {
    hide Leq;
    forall j | 0 <= j < |s| ensures Leq(x, s[j]) {
      if j > 0 {
        LeqTransitive(x, s[0], s[j]);
      }
    }
  }

  lemma {:induction false} InsertKeeps(x: CString, s: seq<CString>)
    ensures multiset(Insert(x, s)) == multiset(s) + multiset{x}
  {
    hide Leq;
    if s != [] {
      InsertKeeps(x, s[1..]);
      assert s == [s[0]] + s[1..];
    }
  }

  lemma {:induction false} InsertSorts(x: CString, s: seq<CString>)
    requires Sorted(s)
    ensures Sorted(Insert(x, s)) && Insert(x, s)[0] == if s == [] || Leq(x, s[0]) then x else s[0]
  {
    hide Leq;
    if s == [] || Leq(x, s[0]) {
      ConsSorted(x, s);
    } else {
      InsertSorts(x, s[1..]);
      LeqTotal(x, s[0]);
      ConsSorted(s[0], Insert(x, s[1..]));
    }
  }

  lemma {:induction false} SortSorts(s: seq<CString>)
    ensures Sorted(Sort(s)) && multiset(Sort(s)) == multiset(s)
  {
    if s != [] {
      SortSorts(s[1..]);
      InsertSorts(s[0], Sort(s[1..]));
      InsertKeeps(s[0], Sort(s[1..]));
      assert s == [s[0]] + s[1..];
    }
  }

  /** The environment for some definitions: sorted, with the strings kept from the start, and
      one fresh string for each definition. */
  ghost predicate IsEnvironment(out: seq<CString>, passthrough: seq<CString>, visible: map<CString, List>,
                                lexical: seq<Binding>, printer: Printer) {
    Sorted(out) && multiset(out) == multiset(passthrough) + multiset(Strings(visible, lexical, printer))
  }

  /** A variable's string is in the environment, once, unless the variable is empty or internal,
      or is called * or 0, or is on the list of those not exported. */
  lemma ExportedExactly(out: seq<CString>, passthrough: seq<CString>, vars: map<CString, Def>, noexport: set<CString>,
                        lexical: seq<Binding>, printer: Printer, name: CString)
    requires IsEnvironment(out, passthrough, Visible(vars, noexport), lexical, printer) && name in vars
    ensures var text := Render(name, vars[name].defn, lexical, printer);
      var hidden := vars[name].defn == [] || vars[name].internal || name in {['*' as int], ['0' as int]} + noexport;
      multiset(out)[text] == multiset(passthrough)[text] + if hidden then 0 else 1
  {
    hide Render, Sorted;
    var text, visible := Render(name, vars[name].defn, lexical, printer), Visible(vars, noexport);
    assert |name| == 1 ==> name == [name[0]];
    assert name in visible ==> text in Strings(visible, lexical, printer);
    if text in Strings(visible, lexical, printer) {
      var n :| n in visible && Render(n, visible[n], lexical, printer) == text;
      RenderNames(n, name, visible[n], vars[name].defn, lexical, printer);
    }
  }
}
