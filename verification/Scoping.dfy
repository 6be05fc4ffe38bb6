/** What a program of assignments, local blocks, handlers and throws means, without a stack of
    saved values and without an environment cache. */
module Scoping {
  import opened CStrings
  import opened Variables

  /** Collect is a garbage collection, MkEnv asks for the environment. */
  datatype Command =
    | Assign(name: CString, binding: Option<nat>, defn: List)
    | Local(name: CString, defn: List, body: Command)
    | Then(first: Command, second: Command)
    | Catch(body: Command, catcher: Command)
    | Throw
    | MkEnv
    | Collect

  /** seen: what the variables were each time the environment was asked for. */
  datatype Outcome = Outcome(end: Meaning, thrown: bool, seen: seq<Meaning>)

  /** Assignments look only at bindings that there are. */
  predicate Scoped(c: Command, bindings: nat) {
    match c
    case Assign(_, b, _) => b.Some? ==> b.value < bindings
    case Local(_, _, body) => Scoped(body, bindings)
    case Then(first, second) => Scoped(first, bindings) && Scoped(second, bindings)
    case Catch(body, catcher) => Scoped(body, bindings) && Scoped(catcher, bindings)
    case _ => true
  }

  function Get(vars: map<CString, Def>, name: CString): Def {
    if name in vars then vars[name] else Def([], false)
  }

  function Assigned(m: Meaning, name: CString, b: Option<nat>, defn: List): Meaning
    requires Chained(m.lexical) && (b.Some? ==> b.value < |m.lexical|)
  {
    var found := Lookup(m.lexical, b, name);
    if found.Some? then m.(lexical := Rebound(m.lexical, found.value, defn))
    else m.(vars := Defined(m.vars, name, Def(defn, false)))
  }

  /** An assignment changes the innermost binding of the name and nothing else, or, if the chain
      comes by none, the variable of that name and nothing else. */
  ghost predicate ChangesOnly(m: Meaning, m': Meaning, name: CString, b: Option<nat>, defn: List)
    requires Chained(m.lexical) && (b.Some? ==> b.value < |m.lexical|)
  {
    && |m'.lexical| == |m.lexical|
    && (forall p: nat :: p < |m.lexical| ==>
         m'.lexical[p] == if Innermost(m.lexical, b, name, p) then m.lexical[p].(defn := defn) else m.lexical[p])
    && (forall n :: n != name || Bound(m.lexical, b, name) ==>
         (n in m'.vars <==> n in m.vars) && (n in m.vars ==> m'.vars[n] == m.vars[n]))
    && (!Bound(m.lexical, b, name) ==>
         (name in m'.vars <==> defn != []) && (defn != [] ==> m'.vars[name] == Def(defn, false)))
  }

  lemma AssignedExactly(m: Meaning, name: CString, b: Option<nat>, defn: List)
    requires Chained(m.lexical) && (b.Some? ==> b.value < |m.lexical|)
    ensures ChangesOnly(m, Assigned(m, name, b, defn), name, b, defn)
  {
    hide Innermost, Bound, Lookup;
    LookupExactly(m.lexical, b, name);
  }

  function Exec(c: Command, m: Meaning): (r: Outcome)
    requires Chained(m.lexical) && Scoped(c, |m.lexical|)
    ensures Chained(r.end.lexical) && |r.end.lexical| == |m.lexical|
    decreases c
  {
    match c
    case Assign(name, b, defn) =>
      if ValidName(name) then Outcome(Assigned(m, name, b, defn), false, []) else Outcome(m, true, [])
    case Local(name, defn, body) =>
      if !ValidName(name) then Outcome(m, true, [])
      else
        var o := Exec(body, m.(vars := m.vars[name := Def(defn, false)]));
        o.(end := o.end.(vars := Defined(o.end.vars, name, Get(m.vars, name))))
    case Then(first, second) =>
      var o := Exec(first, m);
      if o.thrown then o else var p := Exec(second, o.end); p.(seen := o.seen + p.seen)
    case Catch(body, catcher) =>
      var o := Exec(body, m);
      if !o.thrown then o else var p := Exec(catcher, o.end); p.(seen := o.seen + p.seen)
    case Throw => Outcome(m, true, [])
    case MkEnv => Outcome(m, false, [m])
    case Collect => Outcome(m, false, [])
  }

  /** The program ends by an exception: a throw, or a name that cannot be assigned, outside
      every handler, or inside the handler itself. */
  predicate Fails(c: Command) {
    match c
    case Assign(name, _, _) => Refused(name)
    case Local(name, _, body) => Refused(name) || Fails(body)
    case Then(first, second) => Fails(first) || Fails(second)
    case Catch(body, catcher) => Fails(body) && Fails(catcher)
    case Throw => true
    case MkEnv => false
    case Collect => false
  }

  /** Whether it does is settled by the program alone, whatever the variables are. */
  lemma {:induction false} ThrownExactly(c: Command, m: Meaning)
    requires Chained(m.lexical) && Scoped(c, |m.lexical|)
    ensures Exec(c, m).thrown <==> Fails(c)
    decreases c
  {
    hide Refused;
    match c
    case Assign(name, _, _) =>
      RefusedExactly(name);
    case Local(name, defn, body) =>
      RefusedExactly(name);
      if ValidName(name) {
        ThrownExactly(body, m.(vars := m.vars[name := Def(defn, false)]));
      } else {
        RefusedLocal(c, m);
      }
    case Then(first, second) =>
      ThrownExactly(first, m);
      if !Fails(first) {
        ThrownExactly(second, Exec(first, m).end);
      }
    case Catch(body, catcher) =>
      ThrownExactly(body, m);
      if Fails(body) {
        ThrownExactly(catcher, Exec(body, m).end);
      }
    case _ =>
  }

  lemma RefusedLocal(c: Command, m: Meaning)
    requires Chained(m.lexical) && Scoped(c, |m.lexical|) && c.Local? && !ValidName(c.name)
    ensures Exec(c, m) == Outcome(m, true, [])
  {}

  /** The program has the name in an assignment or in a local block. */
  predicate Mentions(c: Command, name: CString) {
    match c
    case Assign(n, _, _) => n == name
    case Local(n, _, body) => n == name || Mentions(body, name)
    case Then(first, second) => Mentions(first, name) || Mentions(second, name)
    case Catch(body, catcher) => Mentions(body, name) || Mentions(catcher, name)
    case _ => false
  }

  predicate Agree(m: Meaning, m': Meaning, name: CString) {
    && (name in m.vars <==> name in m'.vars) && (name in m.vars ==> m.vars[name] == m'.vars[name])
    && |m.lexical| == |m'.lexical|
    && forall p :: 0 <= p < |m.lexical| && m.lexical[p].name == name ==> m.lexical[p] == m'.lexical[p]
  }

  /** Bindings keep their names. */
  predicate SameNames(m: Meaning, m': Meaning) {
    |m.lexical| == |m'.lexical| && forall p :: 0 <= p < |m.lexical| ==> m.lexical[p].name == m'.lexical[p].name
  }

  lemma AssignedAgrees(m: Meaning, n: CString, b: Option<nat>, defn: List, name: CString)
    requires Chained(m.lexical) && (b.Some? ==> b.value < |m.lexical|) && n != name
    ensures Agree(m, Assigned(m, n, b, defn), name) && SameNames(m, Assigned(m, n, b, defn))
  {
    hide Bound;
    AssignedExactly(m, n, b, defn);
  }

  /** A name that is not mentioned means the same throughout, as a variable and as a binding. */
  lemma {:induction false} UnmentionedStays(c: Command, m: Meaning, name: CString)
    requires Chained(m.lexical) && Scoped(c, |m.lexical|) && !Mentions(c, name)
    ensures Agree(m, Exec(c, m).end, name) && SameNames(m, Exec(c, m).end)
    ensures forall i :: 0 <= i < |Exec(c, m).seen| ==> Agree(m, Exec(c, m).seen[i], name)
    decreases c
  {
    hide Assigned, ValidName;
    match c
    case Assign(n, b, defn) =>
      AssignedAgrees(m, n, b, defn, name);
    case Local(n, defn, body) =>
      if ValidName(n) {
        UnmentionedStays(body, m.(vars := m.vars[n := Def(defn, false)]), name);
      }
    case Then(first, second) =>
      UnmentionedStays(first, m, name);
      if !Exec(first, m).thrown {
        UnmentionedStays(second, Exec(first, m).end, name);
      }
    case Catch(body, catcher) =>
      UnmentionedStays(body, m, name);
      if Exec(body, m).thrown {
        UnmentionedStays(catcher, Exec(body, m).end, name);
      }
    case _ =>
  }

  /** Inside a local block the name has the value it was given, until something changes it. */
  lemma LocalSees(name: CString, defn: List, body: Command, m: Meaning)
    requires Chained(m.lexical) && Scoped(Local(name, defn, Then(MkEnv, body)), |m.lexical|) && !Refused(name)
    ensures var seen := Exec(Local(name, defn, Then(MkEnv, body)), m).seen;
      && seen != [] && name in seen[0].vars && seen[0].vars[name] == Def(defn, false)
      && seen[0].lexical == m.lexical && forall n :: n != name ==> Agree(m, seen[0], n)
  {
    hide Refused;
    RefusedExactly(name);
    var inside := m.(vars := m.vars[name := Def(defn, false)]);
    assert Exec(Then(MkEnv, body), inside).seen == [inside] + Exec(body, inside).seen;
  }

  /** Commands run in order, until one of them throws. */
  lemma OneAfterTheOther(a: Command, b: Command, c: Command, m: Meaning)
    requires Chained(m.lexical) && Scoped(Then(Then(a, b), c), |m.lexical|) && Scoped(Then(a, Then(b, c)), |m.lexical|)
    ensures Exec(Then(Then(a, b), c), m) == Exec(Then(a, Then(b, c)), m)
    ensures Fails(a) ==> Exec(Then(a, b), m) == Exec(a, m)
  {
    hide Assigned, ValidName, Chained;
    ThrownExactly(a, m);
    var o := Exec(a, m);
    if !o.thrown {
      var p := Exec(b, o.end);
      if !p.thrown {
        assert o.seen + (p.seen + Exec(c, p.end).seen) == o.seen + p.seen + Exec(c, p.end).seen;
      }
    }
  }

  /** A handler takes over where the throw was, and only then. */
  lemma HandlerTakesOver(a: Command, c: Command, m: Meaning)
    requires Chained(m.lexical) && Scoped(Catch(Then(a, Throw), c), |m.lexical|) && Scoped(Then(a, c), |m.lexical|)
    ensures Fails(a) ==> Exec(Catch(Then(a, Throw), c), m) == Exec(Catch(a, c), m)
    ensures !Fails(a) ==> Exec(Catch(Then(a, Throw), c), m) == Exec(Then(a, c), m) && Exec(Catch(a, c), m) == Exec(a, m)
  {
    hide Assigned, ValidName, Chained;
    ThrownExactly(a, m);
    var o := Exec(a, m);
    if !o.thrown {
      assert o.seen + [] == o.seen;
      assert Exec(Then(a, Throw), m) == Outcome(o.end, true, o.seen);
    }
  }

  /** Some assignment to the name is not inside a local block for it. */
  predicate AssignsOutside(c: Command, name: CString) {
    match c
    case Assign(n, _, _) => n == name
    case Local(n, _, body) => n != name && AssignsOutside(body, name)
    case Then(first, second) => AssignsOutside(first, name) || AssignsOutside(second, name)
    case Catch(body, catcher) => AssignsOutside(body, name) || AssignsOutside(catcher, name)
    case _ => false
  }

  /** A name that is assigned inside local blocks for it only has its old value afterwards,
      whether the program ends normally or by an exception. */
  lemma {:induction false} LocalsRestore(c: Command, m: Meaning, name: CString)
    requires Chained(m.lexical) && Scoped(c, |m.lexical|) && !AssignsOutside(c, name)
    ensures Get(Exec(c, m).end.vars, name).defn == Get(m.vars, name).defn
    decreases c
  {
    match c
    case Local(n, defn, body) =>
      if n != name && ValidName(n) {
        LocalsRestore(body, m.(vars := m.vars[n := Def(defn, false)]), name);
      }
    case Then(first, second) =>
      LocalsRestore(first, m, name);
      if !Exec(first, m).thrown {
        LocalsRestore(second, Exec(first, m).end, name);
      }
    case Catch(body, catcher) =>
      LocalsRestore(body, m, name);
      if Exec(body, m).thrown {
        LocalsRestore(catcher, Exec(body, m).end, name);
      }
    case _ =>
  }

  /** What varpush saves. */
  datatype Push = Push(name: CString, defn: List, bindings: bool, internal: bool)

  function PopOne(m: Meaning, p: Push): Meaning {
    m.(vars := Defined(m.vars, p.name, Def(p.defn, p.internal)))
  }

  /** Undoing pushes, the newest first. */
  function Unwound(m: Meaning, pushes: seq<Push>): Meaning
    decreases |pushes|
  {
    if pushes == [] then m else Unwound(PopOne(m, pushes[0]), pushes[1..])
  }
}
